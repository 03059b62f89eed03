# go-mcache: a verified model

go-mcache is an in-memory cache for Go: a sharded store with time limits, TinyLFU admission over sampled eviction, a
prefix tree for string keys, glob scans, and buffers that batch the writes of many goroutines. This project models its
data structures and protocols in Dafny and proves what they are for.

`dafny verify dfyconfig.toml` checks everything.

- `Ring`, `RingProgress` — the lock-free ring and its flush loop, and that its drain ends. Each atomic load,
  compare-and-swap, write and publish is one event, so a run is any interleaving of any number of producers with the one
  consumer.
- `GcScheduler`, `ExpiryHeap` — the sleeping expiration goroutine of the legacy driver as a state machine, and the
  indexed heap both it and the store use.
- `RadixSpec`, `Radix`, `RadixSearch` — the path-compressed tree: as a value, as nodes changed in place, and searched.
- `Swiss` — the open-addressing table with control bytes, tombstones and growth.
- `BitwiseXor`, `Cuckoo` — the cuckoo filter and the arithmetic that makes its two bucket indexes mutual.
- `Codec`, `GcFree` — the records of the byte log, and one shard of the log with compaction and growth.
- `ExpiryWheel` — the timing wheel, and whole runs of it.
- `Sketch`, `Bloom`, `TinyLfu`, `SampledLfu`, `Policy`, `LockFreeAgeing` — frequency estimates, the doorkeeper, the tracked
  keys, the victim loop, and the race for ageing in the lock-free variant.
- `Mixing` — what the hash functions of sketch, doorkeeper and cuckoo filter are worth.
- `Glob`, `GlobText` — the pattern compiler and the backtracking matcher, and patterns as they are written.
- `Store`, `CacheSpec`, `Cache`, `Scan` — the sharded store, the cache that keeps store, policy, prefix tree, cost counter
  and wheel in step, and scans narrowed by a prefix.
- `Buffered` — ring and cache together: what reads find of writes that went through the buffer.
- `SweepRace` — the three steps a background sweep takes for one entry, with sets and deletes running between them.

The mutable objects of the Go code are classes with its fields; a ghost field or function gives the abstract value, and
each method is proved against that value. Protocols between goroutines are state machines over their atomic steps. Clock
readings come in as a parameter that never decreases.

## Facts worth knowing

- A ring of one slot does not work: an occupied slot carries the number of the next ticket, so pushes go on succeeding
  with nothing popped (`Ring.OneSlotOverruns`). Everything else about the ring holds from two slots on.
- The README of the repository says that a newcomer with the lower frequency is rejected. The code never rejects:
  `Policy.Add` always answers true, stops evicting when the sample is hotter than the newcomer, and then adds it all the
  same. `Policy.Policer.Add` states what does hold of the limits.
- An entry swept at the very nanosecond of its expiry loses its wheel event and stays in the store, unreadable from the next
  nanosecond on, through every later sweep, until a set, a delete, an eviction or a clear removes it
  (`CacheSpec.StaysOrStrands`, `CacheSpec.StrandedStays`, `CacheSpec.SweptAtExpiry`).
- After compacting its byte log, `Set` does not check again whether the new entry fits. If not even header and key do,
  the write panics (`GcFree.Shard.WriteFails`). If they do and the value does not, the value is cut off, `Set` reports
  success, the tail lies past the buffer and reading the key finds nothing (`GcFree.Shard.Truncates`). The next `Set` then
  panics in growing, except one that overwrites an entry of more than a quarter of the buffer, which compacts and so
  drops the cut-off entry (`GcFree.Shard.AfterTruncation`). Both failures happen on a shard of the smallest size, 4096
  bytes (`GcFree.TruncationHappens`, `GcFree.WriteFailureHappens`); as long as entries take at most a quarter of the
  buffer, neither does (`GcFree.Shard.QuarterNeverOverruns`). Compaction keeps every entry if and only if no stored key
  is empty (`GcFree.Shard.Compact`).
- The loop that writes out a character range counts in a byte, so it ends exactly when the range ends below 255
  (`Glob.EndsExactly`). A pattern with a range that has byte 255 at an end therefore never finishes compiling, and every
  other pattern does (`Glob.StuckExactly`, `Glob.RangeTo255IsStuck`).
- The comments of the glob package say that `*` stops at separators. The code treats `*` and `**` alike.
- A cuckoo insertion gives up exactly when neither bucket has a vacant slot and the kicks find none (`Cuckoo.HasRoom`), and
  then leaves exactly one fingerprint, of those stored and the new one, out of the filter (`Cuckoo.CuckooFilter.Add`). A
  filter of one bucket gives up on the fifth key, whatever the keys are (`Cuckoo.FillOneBucket`).
- A sweep deletes an expired entry from the store, then from the policy, then from the prefix tree, and a set of the same
  key may run in between. The three then differ, and they differ exactly as long as a set made in such a gap stands
  (`SweepRace.AgreeExactly`, `SweepRace.LossHappens`). A key lost to the policy in this way is nobody's victim again and
  leaves only by a delete, by its own expiry or by a clear (`SweepRace.UntrackedStays`).
- The lock-free policy tests for ageing once per batch of hits, the other one after every hit. For a batch shorter than
  the threshold this makes no difference exactly when no hit but the last reaches it (`TinyLfu.BatchIsLoop`).

## Model

| member | source | states |
|---|---|---|
| Ring.StepInv | internal/buffer/ring.go:53-98 | Every atomic step of every producer and of the consumer keeps the protocol invariant: slots of the current lap are free, owned by one producer, or published with the claimed value. |
| Ring.RunInv | internal/buffer/ring.go:53-98 | Over any interleaving the invariant holds, and tickets, acknowledgements and flushed batches are only ever extended. |
| Ring.PoppedInClaimOrder | internal/buffer/ring.go:53-98 | In every reachable state what was popped is a prefix of the items in the order their tail CAS succeeded, without loss, duplicate or unwritten value, in batches of 1 to batchSize, and head <= tail <= head + capacity. |
| Ring.AcknowledgedOnce | internal/buffer/ring.go:53-72 | A Push about to return true owns a ticket nobody acknowledged before, and that ticket's item is its own. |
| Ring.GivesUpExactlyWhenFull | internal/buffer/ring.go:54-71 | A push that looks at its slot ends with false if and only if the ring is full, with as many tickets claimed and not released as there are slots; otherwise it goes on with the same item, and from the start only when another push took its ticket. |
| Ring.PushAnswers | internal/buffer/ring.go:53-72 | A push ends in one of two ways: it publishes a ticket that holds its own item, and answers true, or it finds the ring full, changes nothing and answers false. |
| Ring.PushAlone | internal/buffer/ring.go:53-72 | Undisturbed, a push takes the next ticket for its item and is acknowledged when there is room, and answers false with everything left as it was when there is none. |
| Ring.FlushSyncDelivers | internal/buffer/ring.go:211-284 | When FlushSync's channel is closed, every item acknowledged before the call is among the flushed items at its own ticket's position, also when slots were claimed but unpublished during the drain. |
| Ring.ConsumerNeverRetries | internal/buffer/ring.go:76-98 | With one consumer the slot at head is empty or published and the CAS on head succeeds. |
| Ring.FlushStops | internal/buffer/ring.go:238-256 | A batch ends exactly when it has batchSize items or the slot at head holds nothing published. |
| Ring.UnpublishedHasOwner | internal/buffer/ring.go:53-72 | Every claimed, unpopped ticket that is not yet acknowledged has a producer on its way to publishing exactly the claimed item. |
| Ring.FreeSlotIsInWindow | internal/buffer/ring.go:55-63 | A producer that sees its slot free is within one lap of the consumer; this needs two slots. |
| Ring.OneSlotOverruns | internal/buffer/ring.go:59 | With one slot, for every k there is a run in which tail is k ahead of head. |
| Ring.IndexIsRemainder | internal/buffer/ring.go:39-42 | The ring index is the ticket modulo the capacity. |
| RingProgress.StepAdvances | internal/buffer/ring.go:76-98 | With every claim published, each step of the consumer pops or brings the next pop or the end of the flush nearer. |
| RingProgress.FlushEnds | internal/buffer/ring.go:238-265 | With every claim published, the consumer alone finishes its flush, and a FlushSync with it. |
| RingProgress.Settle | internal/buffer/ring.go:60-65 | From any reachable state the pushes that hold tickets can publish them, whatever the consumer is doing. |
| RingProgress.FlushSyncCanReturn | internal/buffer/ring.go:211-284 | No FlushSync is stuck: pushes already begun and the consumer, without a new push, can complete it. |
| RingProgress.FlushSyncCanReturnInEveryRun | internal/buffer/ring.go:211-284 | The same after any run of a ring of two or more slots. |
| GcScheduler.StepKeepsWakeUp | gcmap/gcmap_worker.go:95-188 | Every critical section, signal, timer firing and channel operation keeps the no-lost-wake-up property. |
| GcScheduler.ScheduleKeepsWakeUp | gcmap/gcmap_worker.go:95-118 | Inserting or moving a deadline while the loop sleeps either signals or leaves the earliest deadline covered. |
| GcScheduler.NeverMissesADeadline | gcmap/gcmap_worker.go:122-202 | In every reachable state with the loop asleep and something scheduled, a timer has fired or is set no later than the earliest deadline, or a token is pending, or a caller is between unlock and signal. |
| GcScheduler.OverdueIsServed | gcmap/gcmap_worker.go:122-220 | From any state with that property, not stopped and with some key overdue, the loop can remove exactly the overdue keys within five steps, without time passing or new calls. |
| GcScheduler.OverdueIsServedInEveryRun | gcmap/gcmap_worker.go:122-265 | The same after any run, including RemoveKey and Truncate. |
| GcScheduler.InternalRunsEnd | gcmap/gcmap_worker.go:122-202 | No run of signals, timer firings and loop steps goes on without calls or the passage of time: a potential bounds its length. |
| GcScheduler.OverdueAreAlwaysServed | gcmap/gcmap_worker.go:122-220 | Whatever order such a run takes, it is that short, and when no step is left exactly the overdue keys are gone. |
| GcScheduler.ExpiredDoes | gcmap/gcmap_worker.go:95-220 | A call of Expired made at time t with a positive duration d, whatever runs beside it: until the key is scheduled anew or removed, its deadline is t + d, it is scheduled as long as the clock is below t + d, and once the clock has reached that and no step is left it is gone. |
| GcScheduler.RemovedStaysOut | gcmap/gcmap_worker.go:245-265 | After RemoveKey or Truncate a key stays out until it is scheduled anew; RemoveKey takes out no other. |
| ExpiryHeap.RootIsLeast | internal/store/expiry_heap.go:15-24 | In a heap-ordered slice the first deadline is the least. |
| ExpiryHeap.UpStep | internal/store/expiry_heap.go:20-24 | One exchange of sift-up moves the only violation to the parent. |
| ExpiryHeap.DownStep | internal/store/expiry_heap.go:20-24 | One exchange of sift-down with the smaller child moves the only violation to that child. |
| ExpiryHeap.DrainStep | internal/store/expiry_heap.go:159-163 | Popping a least deadline extends an ordered, duplicate-free drain. |
| ExpiryHeap.Heap.Swap | internal/store/expiry_heap.go:20-24 | Exchanging two items keeps every item's index equal to its position. |
| ExpiryHeap.Heap.Fix | internal/store/expiry_heap.go:76-80 | After one deadline changed, heap order and indexes are restored over the same items. |
| ExpiryHeap.Heap.Push | internal/store/expiry_heap.go:66-90 | Insert or move a deadline; a deadline of zero or less removes the key; order, indexes and key map stay in agreement. |
| ExpiryHeap.Heap.Remove | internal/store/expiry_heap.go:121-131 | Removes just the key and tells whether it was there. |
| ExpiryHeap.Heap.RemoveAt | internal/store/expiry_heap.go:93-100 | Takes out the item at an index; the rest is a heap with correct indexes. |
| ExpiryHeap.Heap.PeekExpireAt | internal/store/expiry_heap.go:136-144 | The least deadline, or 0 for an empty heap. |
| ExpiryHeap.Heap.Pop | internal/store/expiry_heap.go:105-116 | A key with the least deadline leaves, with that deadline; nothing happens only for an empty heap. |
| ExpiryHeap.Heap.PopExpired | internal/store/expiry_heap.go:148-166 | Returns exactly the keys with deadline <= now, in non-decreasing order and each once, and leaves exactly the later ones. |
| RadixSpec.LookupInsert | internal/radix/tree.go:44-101 | Inserting maps the key to the hash and changes no other lookup, through descent and split. |
| RadixSpec.LookupDelete | internal/radix/tree.go:116-153 | Deleting unmaps the key and changes no other lookup, through clean-up and merge. |
| RadixSpec.CompressedInsert | internal/radix/tree.go:44-101 | Insertion keeps the compressed form: every node below the root is a leaf or branches. |
| RadixSpec.CompressedDelete | internal/radix/tree.go:140-150 | So does deletion. |
| RadixSpec.ShapeIsDetermined | internal/radix/tree.go:32-153 | Two compressed trees with equal lookups are equal node for node. |
| RadixSpec.InsertThenDelete | internal/radix/tree.go:32-153 | Inserting a fresh key and deleting it restores the tree itself. |
| RadixSpec.KeysAreLookups | internal/radix/tree.go:272-300 | The key set is finite and consists of the keys that look up. |
| RadixSpec.InsertRefinesMap | internal/radix/tree.go:33-40 | The key set gains the key, and its size one if the key was new. |
| RadixSpec.DeleteRefinesMap | internal/radix/tree.go:104-113 | The key set loses the key, and its size one if the key was there. |
| Radix.CommonPrefixLen | internal/radix/tree.go:321-332 | The loop finds the length of the longest common prefix. |
| Radix.InsertNode | internal/radix/tree.go:44-101 | The in-place insertion has the effect of the value-level one and tells whether the key was new. |
| Radix.SplitNode | internal/radix/tree.go:74-97 | Splitting an edge in place hangs the old child and the new key below the common part. |
| Radix.DeleteNode | internal/radix/tree.go:116-153 | The in-place deletion has the effect of the value-level one and tells whether the key was present. |
| Radix.CleanUpChild | internal/radix/tree.go:140-150 | An empty child goes; one that no longer branches is merged with its only child. |
| Radix.HasKey | internal/radix/tree.go:272-300 | The search loop finds exactly the stored keys. |
| Radix.Tree.InsertKey | internal/radix/tree.go:33-40 | The stored set gains the key and size counts it once. |
| Radix.Tree.DeleteKey | internal/radix/tree.go:104-113 | The stored set loses the key; size and result say whether it was there. |
| Radix.Tree.Has | internal/radix/tree.go:272-300 | Membership in the stored set. |
| Radix.Tree.Clear | internal/radix/tree.go:310-318 | An empty tree on a fresh root. |
| RadixSearch.CollectHashes | internal/radix/tree.go:198-213 | Lists hashes of distinct keys below a node up to the limit, and all of them when the limit is not reached. |
| RadixSearch.FindNode | internal/radix/tree.go:160-192 | Finds the subtree of exactly the keys that start with the prefix, also when the prefix ends inside an edge; failing means that there is none. |
| RadixSearch.FindByPrefix | internal/radix/tree.go:156-195 | Returns hashes of distinct stored keys that start with the prefix: where n keys do, min(limit, n) of them for a positive limit, and min(100, n) otherwise. |
| RadixSearch.CountMatches | internal/radix/tree.go:156-195 | Of n matching keys, min(limit, n) are listed, given that the listing is of distinct matching keys and is complete when it stops short of its limit. |
| Swiss.Place | internal/hashtable/swiss.go:118-136 | Writing an entry to the first free slot of its probe path keeps the table a map with every key reachable. |
| Swiss.Overwrite | internal/hashtable/swiss.go:108-112 | Rewriting a cost changes only that key. |
| Swiss.Bury | internal/hashtable/swiss.go:209-228 | A tombstone removes one key and leaves every other reachable. |
| Swiss.StopAtEmpty | internal/hashtable/swiss.go:144-184 | Stopping a search at the first group with an empty slot misses nothing. |
| Swiss.FreeSlot | internal/hashtable/swiss.go:97-140 | A table below capacity has a slot for a newcomer, so the loop does not fall through. |
| Swiss.MovedAll | internal/hashtable/swiss.go:245-276 | Rehashing every full slot yields the same map. |
| Swiss.ProbeIsRemainder | internal/hashtable/swiss.go:144-184 | Linear probing visits the groups modulo their number. |
| Swiss.BitsApart | internal/hashtable/swiss.go:86-93 | Control byte and home group are told by different bits of the hash, so every pair of them occurs. |
| Swiss.SwissTable.Find | internal/hashtable/swiss.go:144-184 | Finds the slot of exactly the stored hashes. |
| Swiss.SwissTable.InsertNoLock | internal/hashtable/swiss.go:279-303 | Adds a new hash and never falls through. |
| Swiss.SwissTable.Insert | internal/hashtable/swiss.go:97-140 | Refines map update; doubles the table exactly when a new hash would take the load over 7/8; tells whether the hash was new. |
| Swiss.SwissTable.Get | internal/hashtable/swiss.go:188-196 | The cost stored under a hash, if any. |
| Swiss.SwissTable.Update | internal/hashtable/swiss.go:232-241 | Changes the cost of a stored hash only. |
| Swiss.SwissTable.Delete | internal/hashtable/swiss.go:209-228 | Refines map removal and returns the removed cost. |
| Swiss.SwissTable.GrowLocked | internal/hashtable/swiss.go:245-276 | Doubling changes no lookup. |
| Swiss.SwissTable.Clear | internal/hashtable/swiss.go:321-332 | Empties the table at the same capacity. |
| BitwiseXor.XorCancels | internal/policy/cuckoo.go:223-227 | Exclusive or with the same number twice gives the first back. |
| Cuckoo.AlternatesAreMutual | internal/policy/cuckoo.go:217-227 | The alternate of the alternate bucket is the bucket itself, and differs from it when there are two or more. |
| Cuckoo.TagsAgree | internal/policy/cuckoo.go:217-227 | A fingerprint in two buckets stands for the same key class exactly when the buckets are equal or alternates. |
| Cuckoo.FingerprintsAgree | internal/policy/cuckoo.go:205-209 | Two keys have the same fingerprint if and only if their hashes have the same top fifteen bits. |
| Cuckoo.EveryBucketIsHome | internal/policy/cuckoo.go:212-214 | Every bucket is the first bucket of some hash. |
| Mixing.AlternatesSpread | internal/policy/cuckoo.go:217-227 | From one bucket two fingerprints lead to the same alternate if and only if they agree in the last bits, as many as a bucket number has. |
| Cuckoo.StoredMeansInBucket | internal/policy/cuckoo.go:150-168 | A key's tag is stored if and only if its fingerprint is in one of its two buckets. |
| Cuckoo.CuckooFilter.InsertToBucket | internal/policy/cuckoo.go:107-116 | Takes a vacant slot of the bucket, or changes nothing because the bucket is full. |
| Cuckoo.CuckooFilter.Relocate | internal/policy/cuckoo.go:119-146 | Kicks go round the slots as the walk of up to 500 kicks says; they conserve the stored multiset plus the newcomer, and giving up loses exactly one fingerprint. |
| Cuckoo.WalkPlaces | internal/policy/cuckoo.go:119-146 | The walk places its fingerprint if and only if one of the buckets that at most 500 kicks lead to had a vacant slot to begin with. |
| Cuckoo.RoomExactly | internal/policy/cuckoo.go:81-146 | There is room for a key if and only if a slot is vacant in one of its two buckets or in one that at most 500 kicks lead to. |
| Cuckoo.CuckooFilter.Add | internal/policy/cuckoo.go:81-103 | True exactly when one of the two buckets has a vacant slot or the walk of kicks meets one: then a vacant slot takes the key's tag, whatever the kicks moved, and count goes up by one. False: count stays, and of the tags stored and the newcomer's exactly one, possibly the newcomer's own, is left out. |
| Cuckoo.OneBucketRoom | internal/policy/cuckoo.go:119-146 | With one bucket there is room exactly while a slot is vacant, as all the kicks come back to the full bucket. |
| Cuckoo.FillOneBucket | internal/policy/cuckoo.go:81-103 | A new filter of one bucket takes the first four keys and refuses every further one. |
| Cuckoo.CuckooFilter.Contains | internal/policy/cuckoo.go:150-156 | True exactly when the key's tag is stored. |
| Cuckoo.CuckooFilter.Delete | internal/policy/cuckoo.go:172-189 | Removes one copy of the key's tag, if stored; count is the number of occupied slots. |
| Cuckoo.CuckooFilter.Reset | internal/policy/cuckoo.go:230-240 | All slots vacant. |
| Cuckoo.RunBalanced | internal/policy/cuckoo.go:81-189 | While additions succeed and only held hashes are deleted, the stored multiset is that of the held hashes. |
| Cuckoo.HeldKeysAreFound | internal/policy/cuckoo.go:81-227 | In every such run each held hash is found, and the occupied slots number the held hashes. |
| Cuckoo.FoundMeansShared | internal/policy/cuckoo.go:150-209 | In such a run a hash is found only if it has its top fifteen bits in common with a held one. |
| Cuckoo.Replay | internal/policy/cuckoo.go:81-189 | Such a run made on a filter by calling Add and Delete keeps its stored multiset that of the held hashes; it stops short only at an Add that fails or a removal that names no held hash. |
| Cuckoo.ReplayFromEmpty | internal/policy/cuckoo.go:81-227 | No false negatives: after such a run on a new filter Contains answers true for every held hash, and count is their number. |
| Codec.U32RoundTrip | internal/store/gcfree.go:173-174 | Little-endian lengths read back. |
| Codec.Int64RoundTrip | internal/store/gcfree.go:175-176 | Signed expiry and cost read back from their two's complement. |
| Codec.DecodeEncode | internal/store/gcfree.go:171-178 | A record reads back as itself whatever follows it in the log. |
| Codec.Layout | internal/store/gcfree.go:171-178 | Where the fields of a record lie: lengths in bytes 0 to 7, expiry and cost in bytes 8 to 23, lowest byte first and in two's complement, then key and value. |
| GcFree.Append | internal/store/gcfree.go:171-181 | Writing at the tail overwrites no live record and keeps tail = live + deleted bytes. |
| GcFree.Mark | internal/store/gcfree.go:146-155 | Zeroing a record's key length makes just that record dead and counts its bytes. |
| GcFree.Room | internal/store/gcfree.go:246-272 | A compaction copy always fits. |
| GcFree.Shard.Get | internal/store/gcfree.go:87-134 | The value last set for the hash under the same key, unless its time is past; nothing for an entry whose value was cut off. |
| GcFree.Shard.Set | internal/store/gcfree.go:138-184 | Refines map update, with what compaction dropped, whenever the entry is stored whole; panics exactly when grow copies from a tail past the buffer or, after compaction, header and key have no room; and when only the value has none, reports success with the value cut off, the tail past the buffer and the key unreadable. |
| GcFree.Shard.Delete | internal/store/gcfree.go:188-211 | Refines map removal, of a cut-off entry too, and tells whether the hash was there. |
| GcFree.Shard.Compact | internal/store/gcfree.go:238-278 | Keeps every live record with a non-empty key, and nothing else, in a buffer of the same size, also from a shard with a cut-off entry; loses nothing if and only if no stored key is empty. |
| GcFree.Shard.Grow | internal/store/gcfree.go:281-290 | Doubles until there is room and changes no lookup; panics exactly when the tail lies past the buffer. |
| GcFree.DoublesJustEnough | internal/store/gcfree.go:281-290 | The new size is the old one doubled as often as is needed, and no more often. |
| GcFree.Shard.QuarterNeverOverruns | internal/store/gcfree.go:161-169 | Entries of at most a quarter of the buffer never overrun it. |
| GcFree.Shard.AfterTruncation | internal/store/gcfree.go:146-169 | After a cut-off write the next Set panics in growing exactly when its key is new or has an entry of at most a quarter of the buffer; every other one compacts. |
| GcFree.Tears | internal/store/gcfree.go:108-112 | A record written as far as there is room, header and key whole, reads as one that reaches past the buffer. |
| GcFree.TruncationHappens | internal/store/gcfree.go:138-184 | On a shard of 4096 bytes three Sets end in success with the tail at 4500; reading the third key finds nothing and setting a new key panics. |
| GcFree.WriteFailureHappens | internal/store/gcfree.go:161-178 | On the same shard setting the second record anew with a key of 2900 bytes panics, and only the first record is left. |
| ExpiryWheel.Wheel.Schedule | internal/store/expiry_wheel.go:51-66 | The event becomes pending; one without a positive expiry does not. |
| ExpiryWheel.Wheel.Advance | internal/store/expiry_wheel.go:69-102 | Returns exactly the pending events that are due and whose bucket the cursor passes; the others stay. |
| ExpiryWheel.Wheel.Sift | internal/store/expiry_wheel.go:87-98 | Draining one bucket splits it into the due events and the later ones, in order. |
| ExpiryWheel.TickExactly | internal/store/expiry_wheel.go:56 | The tick t of an event is the one with (t - 1) * resolution < expireAt <= t * resolution. |
| ExpiryWheel.Wheel.Clear | internal/store/expiry_wheel.go:105-112 | Nothing pending, cursor at the present tick. |
| ExpiryWheel.Conserved | internal/store/expiry_wheel.go:51-112 | Over any stretch of a run of Schedule, Advance and Clear, pending before plus scheduled equals returned plus dropped by Clear plus pending after, for every event. |
| ExpiryWheel.NeverEarly | internal/store/expiry_wheel.go:89-93 | Nothing is returned before its expiry. |
| ExpiryWheel.DueTick | internal/store/expiry_wheel.go:56-57 | The draining tick of an event is its own when ahead of the cursor, otherwise within one rotation. |
| ExpiryWheel.ReturnedOnTime | internal/store/expiry_wheel.go:69-102 | Unless a Clear comes first, the first Advance to reach that tick leaves the event nowhere in the wheel, however many rotations it jumps, and by then it has been returned once for each time it was pending or scheduled. |
| ExpiryWheel.Replay | internal/store/expiry_wheel.go:51-112 | Any sequence of Schedule, Advance and Clear made on a wheel is such a run, from the state the wheel was in to the one it is left in, with the events it returned; so for every event pending before plus scheduled equals returned plus dropped plus pending after. |
| Sketch.WithNibble | internal/policy/sketch.go:92-113 | Writing one half of a byte leaves the other half alone. |
| Sketch.Halved | internal/policy/sketch.go:128-141 | Halving a packed byte halves both counters without leaking bits. |
| Sketch.CmSketch.IncrementAt | internal/policy/sketch.go:92-113 | One counter goes up, saturating at 15; no other changes. |
| Sketch.CmSketch.Increment | internal/policy/sketch.go:53-61 | The hash's counter of every row goes up, and no other. |
| Sketch.CmSketch.Estimate | internal/policy/sketch.go:64-77 | The least of the hash's counters. |
| Sketch.CmSketch.Reset | internal/policy/sketch.go:128-141 | Every counter is halved. |
| Sketch.CmSketch.Clear | internal/policy/sketch.go:144-153 | Every counter is zero. |
| Mixing.MixIsInjective | internal/policy/sketch.go:80-89 | With the same seed the finaliser takes different hashes to different 64-bit numbers. |
| Mixing.EveryCounterIsUsed | internal/policy/sketch.go:80-89 | It reaches every 64-bit number, so every counter of a row is some hash's. |
| Mixing.LeastOfFour | internal/policy/sketch.go:64-77 | The estimate is one of the hash's four counters and no more than any of them. |
| Bloom.OrSetsOneBit | internal/policy/bloom.go:49-66 | Or-ing a one-bit mask sets that bit and no other. |
| Bloom.BloomFilter.Add | internal/policy/bloom.go:49-66 | Sets exactly the probed bits and tells whether they were all set before. |
| Bloom.BloomFilter.Contains | internal/policy/bloom.go:69-84 | True exactly when all probed bits are set. |
| Bloom.BloomFilter.Reset | internal/policy/bloom.go:96-103 | No bit is set. |
| Mixing.SevenProbes | internal/policy/bloom.go:87-93 | The bits of a key are the seven of double hashing, the second hash being the first with its halves exchanged. |
| Mixing.TellsApart | internal/policy/bloom.go:49-84 | An empty filter that is given one key finds that key and does not find another. |
| TinyLfu.ExactCountsAccesses | internal/policy/tinylfu.go:34-61 | Until the first ageing the collision-free reference counts a key's accesses, up to sixteen. |
| TinyLfu.TinyLFU.Increment | internal/policy/tinylfu.go:34-48 | Stays above the reference; exactly the key's bits are set and, if they all were before, its counters raised, and at the threshold every counter is halved and the doorkeeper emptied. |
| TinyLfu.TinyLFU.IncrementBatch | internal/policy/tinylfu_lockfree.go:93-109 | Each counter goes up, to at most fifteen, once for every access of the batch that uses it and finds its own bits set by then; the bits set are the old ones and the batch's; when the count reaches the threshold, every counter is then halved, no bit is left and counting starts again. It stays above the reference. |
| TinyLfu.BatchIsLoop | internal/policy/tinylfu_lockfree.go:93-109 | A batch shorter than the threshold has the effect of its accesses one by one if and only if none but the last takes the count to the threshold. |
| TinyLfu.AgesAtThreshold | internal/policy/tinylfu.go:34-81 | After the access that takes the count to the threshold the reference of a key with n accesses is half of n - 1, at most seven, the doorkeeper is empty and counting starts again. |
| TinyLfu.BatchAges | internal/policy/tinylfu_lockfree.go:93-109 | So it is after a batch that reaches the threshold or goes beyond; a shorter one counts its accesses, up to sixteen. |
| TinyLfu.TinyLFU.NeverUnderestimates | internal/policy/tinylfu.go:51-61 | The estimate is at least the reference's, despite shared counters and bits, and at most 16. |
| TinyLfu.TinyLFU.ExactWhenAlone | internal/policy/tinylfu.go:34-81 | For a key with a counter and a bit that no other recorded key uses the estimate is exactly the reference's, through every increment, batch and ageing. |
| TinyLfu.TinyLFU.Estimate | internal/policy/tinylfu.go:51-61 | The least counter, plus one for a key in the doorkeeper. |
| TinyLfu.TinyLFU.Admit | internal/policy/tinylfu.go:66-73 | Admits exactly when the newcomer's estimate is no lower than the victim's. |
| TinyLfu.TinyLFU.Reset | internal/policy/tinylfu.go:77-81 | Ageing keeps the sketch above the aged reference. |
| TinyLfu.TinyLFU.Clear | internal/policy/tinylfu.go:84-91 | Back to the fresh reference. |
| SampledLfu.DenseSwapDelete | internal/policy/sampledlfu.go:85-102 | Moving the last key into the hole keeps array and index map inverse to each other. |
| SampledLfu.TotalAfterPut | internal/policy/sampledlfu.go:49-66 | How a put changes the total cost and the number of keys. |
| SampledLfu.TotalAfterRemove | internal/policy/sampledlfu.go:77-103 | How a removal changes them. |
| SampledLfu.SampledLFU.Add | internal/policy/sampledlfu.go:49-66 | Tracks or re-tracks a key; array, index, costs and totals agree. |
| SampledLfu.SampledLFU.Del | internal/policy/sampledlfu.go:77-103 | Forgets just the key; they still agree. |
| SampledLfu.SampledLFU.Update | internal/policy/sampledlfu.go:106-114 | Changes the cost of a tracked key only. |
| SampledLfu.SampledLFU.Sample | internal/policy/sampledlfu.go:146-197 | Distinct tracked keys with their hashes: all of fewer than 100, otherwise 10, 15 or 20 of them. |
| SampledLfu.SampledLFU.EvictionNeedsKeys | internal/policy/sampledlfu.go:131-142 | Over a limit there is something to sample. |
| SampledLfu.SampledLFU.Clear | internal/policy/sampledlfu.go:210-219 | Nothing tracked and no eviction needed. |
| Policy.Policer.Coldest | internal/policy/policy.go:64-72 | A sampled key with the least estimate. |
| Policy.Policer.FindVictims | internal/policy/policy.go:55-83 | Ends; victims are distinct tracked keys none hotter than the newcomer, each the coldest of a sample of what was then tracked and each taken while what then remained was over a limit; it ends within the limits or at a sample that is hotter throughout. |
| Policy.Policer.Add | internal/policy/policy.go:31-51 | Always accepts; tracked keys become the old ones minus the victims plus the key, each victim still needed when its turn came; over the limits by more than that one item only if the last sample was strictly hotter throughout. |
| Policy.Policer.ColdestOfAll | internal/policy/policy.go:55-83 | With fewer than 100 keys each victim is the coldest of all that were tracked when its turn came. |
| Policy.NeededMeansOver | internal/policy/policy.go:55-83 | When the turn of a victim came, the cost or the number of what was then tracked was over its limit; so nobody goes when nothing was. |
| Policy.Policer.Access | internal/policy/policy.go:86-88 | A hit counts towards frequency and changes nothing tracked. |
| Policy.Policer.AccessBatch | internal/policy/policy_lockfree.go:93-95 | A batch of hits moves counters, bits and count as one batch, with at most one ageing, and changes nothing tracked. |
| Policy.Policer.Del | internal/policy/policy.go:98-102 | Forgets the key. |
| Policy.Policer.Update | internal/policy/policy.go:105-109 | Changes the cost of a tracked key. |
| Policy.Policer.Clear | internal/policy/policy.go:122-127 | Nothing tracked, all frequencies forgotten. |
| LockFreeAgeing.StepInv | internal/policy/tinylfu_lockfree.go:34-110 | Every step keeps: a counter at the threshold is exactly the value some call holds and has yet to claim; every addition is in the counter, a claim, or was cleared. |
| LockFreeAgeing.QuietCounterIsLow | internal/policy/tinylfu_lockfree.go:41-51 | With no call in flight the counter is below the threshold. |
| LockFreeAgeing.AgeingsMatchAdditions | internal/policy/tinylfu_lockfree.go:101-109 | No ageing is forgotten or made up: the claims account for all additions that no Clear threw away but a remainder below the threshold. |
| LockFreeAgeing.AddedIsNamed | internal/policy/tinylfu_lockfree.go:34-110 | In every run the additions are the sizes of the calls that made them: one for an Increment, the number of hashes for a batch. |
| LockFreeAgeing.AgeingsMatchCalls | internal/policy/tinylfu_lockfree.go:34-110 | So without a Clear the ageings account for the sizes of all calls but a remainder below the threshold. |
| Glob.MatchesIsSplits | internal/glob/pattern.go:200-259 | Matching segment by segment is splitting the key into consecutive pieces that fit. |
| Glob.MatchSegments | internal/glob/pattern.go:200-259 | The backtracking matcher answers true exactly when the rest of the key matches the rest of the segments. |
| Glob.MatchStar | internal/glob/pattern.go:238-254 | The search loop of a star finds a position if there is one. |
| Glob.ParseKeepsMeaning | internal/glob/pattern.go:48-108 | The compiled segments match exactly the keys the pattern's text describes, with a character set described by its members. |
| GlobText.TextMeansPieces | internal/glob/pattern.go:48-192 | The text of a pattern describes exactly the keys its pieces mean: bytes, escaped bytes, ?, * and sets with either sign or none, of bytes, escaped bytes and ranges in either order. |
| GlobText.SignComplements | internal/glob/pattern.go:137-140 | Each of the signs ^ and ! turns a set into its complement. |
| GlobText.UnclosedSet | internal/glob/pattern.go:166-170 | A set that is never closed describes nothing and is never compiled. |
| Glob.PrefixOfDescribed | internal/glob/pattern.go:111-126 | Every key a pattern describes starts with its literal prefix, with escapes and a trailing backslash. |
| GlobText.PrefixIsLead | internal/glob/pattern.go:111-126 | The literal prefix goes on exactly up to the first wildcard. |
| GlobText.NoWildcards | internal/glob/pattern.go:111-126 | A pattern without wildcards describes its prefix and nothing else. |
| Glob.PrefixLosesNoMatch | internal/glob/pattern.go:111-126 | Narrowing a scan by the prefix loses no match. |
| Glob.CharsAreMembers | internal/glob/pattern.go:143-168 | The bytes parsed out of a character set are its members: escaped bytes, the bytes from the lower to the higher end of a range, and bytes that stand for themselves. |
| Glob.EndsExactly | internal/glob/pattern.go:157-159 | The loop over the bytes of a range ends if and only if its last byte is below 255, its counter being a byte that wraps. |
| Glob.StuckExactly | internal/glob/pattern.go:130-173 | Compiling meets a range loop that never ends if and only if one pass over the text meets a range with byte 255 at an end inside a character set. |
| Glob.RangeTo255IsStuck | internal/glob/pattern.go:157 | A concrete pattern on which compiling never ends: at every turn of its range loop the condition still holds and one more byte has been written. |
| Glob.DoExtractPrefix | internal/glob/pattern.go:111-126 | The loop computes the literal prefix. |
| Glob.DoUnescape | internal/glob/pattern.go:176-192 | The loop removes the escapes. |
| Glob.ParseCharset | internal/glob/pattern.go:130-173 | The loop reads a character set, its negation and its end, or reports an unmatched bracket. |
| Glob.RangeBytes | internal/glob/pattern.go:155-159 | The loop writes every byte of a range, in order, and ends, given that the range ends below 255. |
| Glob.Compile | internal/glob/pattern.go:48-108 | The loop yields the segments and prefix of the pattern, or its error. |
| Glob.Match | internal/glob/pattern.go:292-298 | Compiling and matching answers whether the pattern describes the key. |
| Store.HoldsAfterPut | internal/store/sharded.go:201-218 | Writing to the shard of a key's hash keeps every entry in its own shard and changes the shard sizes by the new key only. |
| Store.HoldsAfterTakeOut | internal/store/sharded.go:241-256 | So does taking an entry out. |
| Store.OneShardChanged | internal/store/sharded.go:213-215 | The total of the shard sizes changes with the one shard. |
| Store.EveryShardIsUsed | internal/store/sharded.go:94-96 | Every shard is the shard of some hash. |
| Store.ShardedStore.GetByHash | internal/store/sharded.go:165-185 | The stored entry, unless its time is past. |
| Store.ShardedStore.PeekByHash | internal/store/sharded.go:189-197 | The stored entry, whatever its time. |
| Store.ShardedStore.Set | internal/store/sharded.go:201-218 | Replaces the entry of its key; size counts keys; a zero hash is computed. |
| Store.ShardedStore.DeleteByHash | internal/store/sharded.go:241-256 | Removes and returns the entry of a key. |
| Store.ShardedStore.UpdateExistingByHash | internal/store/sharded.go:262-295 | Replaces a present entry and gives the difference in cost; leaves absent keys absent. |
| Store.ShardedStore.DeleteIfExpired | internal/store/sharded.go:459-475 | Deletes exactly an entry that still has the scheduled expiry and is strictly past it. |
| Store.ShardedStore.Clear | internal/store/sharded.go:309-316 | Nothing stored, size zero. |
| CacheSpec.AnswerIsLastSet | cache.go:131-149 | What a read answers, as a property of the history: the last set with no later delete, clear or eviction, unless its time has passed. |
| CacheSpec.ReadIsAnswer | cache.go:131-149 | While contents are faithful to the history, a store read is that answer. |
| CacheSpec.FaithfulAfterSet | cache.go:220-261 | Setting with victims keeps contents faithful. |
| CacheSpec.FaithfulAfterSweep | cache.go:616-643 | So does a sweep, with stale events for overwritten time limits among those returned. |
| CacheSpec.SweptOneMore | cache.go:623-627 | Handling the returned events one by one deletes exactly the entries whose own event is among them and whose time is past. |
| CacheSpec.StaysOrStrands | internal/store/sharded.go:459-475 | A pending entry survives a sweep if and only if its event is not returned or it expires at that very moment; in the latter case its event is gone. |
| CacheSpec.StrandedStays | cache.go:616-643 | An entry whose event is not pending survives every later sweep, and its event does not come back. |
| CacheSpec.ArmedAfterSweep | cache.go:616-643 | After any sweep every stored time limit still has its event, except where a sweep ran at its very moment. |
| CacheSpec.SweepIsPrompt | internal/store/expiry_wheel.go:69-102 | The first sweep to reach a tick at which an entry's bucket comes round, its own or a later one, removes it, but for that same moment. |
| CacheSpec.AheadAfterSweep | internal/store/expiry_wheel.go:69-102 | Sweeps keep for every stored time limit, those written when the cursor had passed their tick included, a draining tick ahead of the cursor, except where one ran at its very moment. |
| CacheSpec.FiledAhead | cache.go:178-181 | A time limit in the future is due at its own tick. |
| CacheSpec.SweptAtExpiry | internal/store/expiry_wheel.go:90 | A concrete sweep that leaves an entry without an event. |
| Cache.Cache.BooksAgree | cache.go:204-331 | Store, policy and prefix tree hold the same keys, the policy with the store's hashes and costs and the tree under the store's hashes, and the cost counter, the stored costs and the policy's used cost are one number; so are all sizes. |
| Cache.Cache.Get | cache.go:131-149 | Returns the answer the history of operations gives, and nothing else. |
| Cache.Cache.SetWithCost | cache.go:160-202 | Stores the value at the price given, or else computed, or else one. Until an operation touches the key, reads find it up to and including now + ttl for a positive ttl, whatever the default; with none the default decides, and without a default there is no limit. Other keys leave only as victims no hotter than the newcomer, only for a new key and each only while a limit was still exceeded when its turn came; the time limit is due at its own tick; everything stays in agreement. |
| Cache.Cache.SetSync | cache.go:204-217 | The same for a given cost and expiry, for keys present and absent. |
| Cache.Cache.TryUpdateExisting | cache.go:669-702 | Overwrites a present key with no victims, leaving the policy untouched when the cost stays the same; does nothing for an absent one; its event is due at its own tick, or within one rotation when that has passed. |
| Cache.Cache.DoSet | cache.go:220-261 | A new key goes in, and it is never refused; victims, each still needed when its turn came, go out of every book. |
| Cache.Cache.Track | cache.go:222-229 | The policy tracks the newcomer and names victims: stored keys under the store's own hashes, none hotter, each while what remained was over a limit. |
| Cache.Cache.MakeRoom | cache.go:222-234 | The victims so named leave store, counter and tree, and nothing else does. |
| Cache.Cache.EvictVictim | cache.go:265-286 | Store, counter and tree lose one key together. |
| Cache.Cache.DoDelete | cache.go:312-331 | All books lose the key; the result says whether it was stored. |
| Cache.Cache.RemoveExpired | cache.go:616-643 | Deletes from all books exactly the entries the wheel's events doom at `now`; no answer changes for any key at any time; an entry whose draining tick has come, however late it was written, still stays only if a sweep ran at its very moment. |
| SweepRace.BooksNext | cache.go:616-643 | Every step of a sweep, set, delete or clear keeps, for each key, what store, policy and tree hold of it: the policy lacks a stored key exactly when a set that stands came before the sweep untracked it, the tree exactly when one came before the sweep unlisted it. |
| SweepRace.AgreeExactly | cache.go:616-643 | Whatever runs between the steps of a sweep, store, policy and tree agree after it if and only if no set that still stands was made while the sweep was on its key. |
| SweepRace.GapMatters | cache.go:623-635 | A key so set is missing from the tree; every other key is in all books, at one cost, or in none. |
| SweepRace.UntrackedStays | cache.go:669-702 | A key stored and not tracked stays so through all sets and is never a victim; only a delete, its own expiry or a clear takes it out. |
| SweepRace.LossHappens | cache.go:623-635 | A concrete run after which the store holds a key that policy and tree have lost. |
| Cache.Cache.Clear | cache.go:540-552 | All books are empty and in agreement. |
| Cache.Cache.ProcessReadBatch | cache.go:584-595 | Replayed hits move the frequencies as the reference says and change nothing else; with the lock-free policy they move counters, bits and count as one batch with at most one ageing, with the other one by one. |
| CacheSpec.HashesAfterInsert | internal/radix/tree.go:44-101 | Inserting under the key's own hash keeps every listed key under its own hash, through splits. |
| CacheSpec.HashesAfterDelete | internal/radix/tree.go:116-153 | So does deleting, through merges. |
| Cache.Cache.ProcessWriteBatch | cache.go:573-581 | Buffered writes take effect one by one in batch order, each with its place in the history. |
| Cache.Cache.ProcessWrite | cache.go:575-579 | One item of a batch sets or deletes, with one place in the history. |
| Scan.ShortPageIsComplete | iterator.go:143-149 | A page of hashes short of its limit misses no stored key with the prefix. |
| Scan.PrefixHashes | iterator.go:143-149 | The prefix tree yields the hashes of distinct stored keys with the prefix: where the store holds n, min(limit, n) for a positive limit and min(100, n) otherwise. |
| Scan.PatternHashes | cache.go:514-527 | Narrowing by the pattern's literal prefix loses no stored key the pattern describes, when the page is short of its limit; a bad pattern finds nothing. |
| Buffered.Work | cache.go:573-643 | Items worked off one by one on the cache, with a sweep between any two, grow the history the next rows speak of. |
| Buffered.WritesAreItems | cache.go:573-581 | The writes in the history are the items, one for one and in order, whatever sweeps ran in between, within a batch too. |
| Buffered.WritesInClaimOrder | cache.go:185-198 | In every interleaving of writers, flush loop and sweeps, and at any moment, in the middle of a batch too, the history holds the buffered writes in the order their tickets were claimed, none lost or repeated. |
| Buffered.WaitedWriteIsRecorded | cache.go:488-495 | When Wait returns, every write acknowledged before it is in the history at its own place. |
| Buffered.SweepsDoNotCount | cache.go:616-643 | Sweeps can be dropped from a history without changing what it says of any key. |
| Buffered.ReadsRecordedWrite | cache.go:131-149 | A read finds the value of a recorded write that no later write set, deleted or evicted, until its time has passed. |

## Left out

- Ring.StepInv: a flush may begin whenever the consumer waits (full batch, timer or request), so the signalling and the retry of the outer Push (internal/buffer/ring.go:183-208) only decide when, and Close is not modelled.
- RingProgress.FlushSyncCanReturn: a completing run exists from every state; that the Go scheduler takes it is not claimed, as a producer that is never run again keeps the drain waiting.
- GcScheduler.NeverMissesADeadline: the timer is set from the same clock reading as the interval, a stopped or re-armed timer delivers no stale tick (as since Go 1.23), and the store deletion after popping is not part of this model.
- ExpiryHeap.Heap.Fix: sift-up and sift-down are those documented for container/heap; heap capacity hints and Clear are not modelled.
- Swiss.SwissTable.Insert: groups of sixteen control bytes lie end to end in one array; a table has a whole number of groups; sampling and ranging are not modelled.
- Cuckoo.CuckooFilter.Add: the number of buckets, a power of two, is given by its exponent; sizing from a false-positive rate is not modelled.
- GcFree.Shard.Set: one shard; a panic is the result `Panicked`, and after one inside grow, which leaves the old entry deleted but indexed, only `GcFree.Shard.Consistent` is promised. Offsets above 4 GiB and the store's size counter are not modelled.
- Cuckoo.Replay: runs of Add and Delete; at an Add that fails it says no more than that one failed, the condition being that of `Cuckoo.CuckooFilter.Add`.
- ExpiryWheel.Wheel.Advance: times and ticks are unbounded integers.
- Sketch.CmSketch.Increment: row seeds are arbitrary; Bloom words are natural numbers taken bit by bit.
- SampledLfu.SampledLFU.Sample: the random draw that retries until it meets a fresh position is any fresh position, so the retry loop's ending is not claimed.
- Mixing.MixIsInjective: that the hashes spread keys evenly is not claimed.
- LockFreeAgeing.StepInv: the counter does not wrap at 2^64; the sketch and filter of the lock-free variant are not modelled under concurrent access.
- TinyLfu.TinyLFU.IncrementBatch: one batch at a time; batches that overlap race for the ageing as LockFreeAgeing says.
- Glob.Compile: excludes exactly the patterns on which the code does not return (Glob.StuckExactly).
- Buffered.WritesInClaimOrder: speaks of writes the buffer took; where a full buffer falls back to a synchronous write, that write can overtake queued ones (cache.go:194-196), and no order is claimed. A clear in the middle starts a new history.
- Cache.Cache.SetWithCost: the path without a write buffer; with one, ProcessWriteBatch makes the write.
- Buffered.Work: sweeps come between the items of a batch, not in the middle of the set or delete of one item.
- Cache.Cache.DoSet: concurrent setters of the same key, which could both find it absent, are not modelled, and each operation of the cache is one step; nor are metrics, callbacks and Close.
- SweepRace.AgreeExactly: only the sweep is taken apart; a set with its evictions, a delete and a clear are single steps. The wheel is left out, so that any entry past its time may be the next one taken.
- Cache.Cache.Get: keys are strings; recording the access goes through a lossy buffer and appears as ProcessReadBatch.
- WalkPrefix reports the search prefix instead of the key when the prefix ends inside an edge (internal/radix/tree.go:251).
- Scan.PatternHashes: stops at the hashes; paging over them and over the store depends on Go's map order (internal/store/sharded.go:409, iterator.go:151-190).
- The lossy buffer, the lock-free copies of policy, sketch and filter, the blocked filter: repetitions of what is modelled.
- Batch reads, the legacy driver's map and its callbacks, prefetching, pools and allocators: nothing further to prove.
