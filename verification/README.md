# DeftRPC: verified models of its concurrent and data-structure core

DeftRPC is a C++ coroutine RPC framework. This project models the six components whose behaviour is simple to specify and
complicated to implement, and proves them against those specifications.

- `EventLoop.dfy`: the lock-free task queue and the scheduler loop that drains it, as one step machine. A step is one
  atomic access or one system call; any number of threads enqueue and stop, one thread dequeues. The invariant is proved
  inductive over every interleaving; the queue refines an atomic FIFO, and neither a wake-up nor a stop is lost.
- `Progress.dfy`: what the threads and the loop of that machine get done: every call returns within fourteen steps of its
  own thread alone, with exactly its effect; the loop alone comes to rest; and from every reachable state everything ever
  enqueued can be delivered.
- `SkipList.dfy`: the indexable skip list, with its nodes on the heap. A node's rank is its position in the ghost sequence
  `nodes`; each level is viewed as a column of optional (next, span) pairs, each node as a tower of them.
- `HashTable.dfy`, `HashIterator.dfy`: the hash table with incremental rehash, with its entries and bucket arrays on the
  heap, and its bidirectional iterator. The hash function is a parameter.
- `Bytes.dfy`, `Serializer.dfy`, `WireFormat.dfy`, `Archive.dfy`: the binary archive. `Serializer` prints and parses
  cyclic, shared object graphs as functions; `WireFormat` says what their bytes are; `Archive` holds the objects that do
  it in place, proved equal to those functions.
- `RingBuffer.dfy`, `Codec.dfy`: the growing ring buffer with its two representations of "full", its vectored I/O, and the
  length-prefixed codec on top of it.
- `Options.dfy`, `Division.dfy`: optional values; quotients and remainders.
- `Crc32.dfy`: the table-driven CRC-32 (generator of section 3.2.9 of IEEE 802.3, zero start, no reflection, no final
  inversion), as remainder of polynomial division.

Where the code falls short of what it is for, the model keeps the code and the contracts say exactly when it works:

- The queue deletes the old head while producers may still hold it. A producer touches a deleted node if and only if the
  tail it has loaded is no longer among the nodes from the head on (`EventLoop.TouchesDeletedExactly`); two producers can
  get there (`DeletedNodeIsRead`), a single one never does (`SoleProducerIsSafe`), nor does the consumer.
- `SkipList::Delete` lowers the level counter one too far. After deleting a present key from a valid list the list
  satisfies its invariant if and only if it is now empty (`SkipList.SkipList.Delete`). What it keeps as long as nodes
  remain is `Live`: every level below the counter is still exact. Under `Live`, with a counter of at least 1, finding,
  unlinking and deleting again are correct for every key, and so is inserting below the counter; with a counter of 0
  `Find` finds nothing, present or not, and two insertions and one deletion lead there (`DeleteThenFind`). `Delete` also
  leaves the back pointer or tail pointer that led to the node.
- `HashTable`'s sparse-table path starts a rehash into a larger table: deleting never makes the table smaller
  (`HashTable.HashTable.Delete`), and on a table without entries every deletion doubles it (`DeleteFromEmpty`). The 28th
  such call asks for 2^31 buckets, more than the shift at `hash.cpp:160` can give.
- The hash iterator's reset reads outside the first table if and only if a rehash is under way, the first table is empty
  and the second is not (`HashIterator.HashIterator.MReset`); four calls lead there (`Stranded`).
- `RingBuffer::FetchDataFromFd` hands the kernel a range outside the array if and only if the contents end at the
  capacity and do not start at zero (`RingBuffer.FetchInBounds`); `FillReadFetch` gets there in three calls.

## Model

| member | source | states |
|---|---|---|
| EventLoop.StepRefinesFifo | src/include/common/LockFreeQueue.h:41-88 | every step of every interleaving keeps the invariant and either appends exactly the value of the node whose link CAS succeeds, or removes exactly the first pending value at the head CAS, or leaves the abstract FIFO alone |
| EventLoop.InvStep | src/include/common/LockFreeQueue.h:41-88 | the chain, the lagging tail, the counter, the order and the wake-up invariants are inductive over all steps |
| EventLoop.QueueStep | src/include/common/LockFreeQueue.h:41-88 | one acyclic chain from the head, tail at or after head and at most one node behind the last, counter bounded by the linked nodes: kept by every step |
| EventLoop.WakeStep | src/coroutine/Scheduler.cpp:141-168 | the wake-up and stop invariants are kept by every step |
| EventLoop.FifoStep | src/include/common/LockFreeQueue.h:41-88 | what has been returned is what was linked first, and each thread's own order is kept, by every step |
| EventLoop.NeverStuck | src/include/common/LockFreeQueue.h:41-88 | in every reachable state no thread inside a call dereferences a null or never-allocated pointer; whether the node has been deleted since is the subject of the next four |
| EventLoop.TouchesDeletedExactly | src/include/common/LockFreeQueue.h:48-63 | in every reachable state a producer about to read or swap a next pointer touches a deleted node if and only if the tail it loaded is not among the nodes from the head on, and then that node has a successor, so its swap must fail |
| EventLoop.ConsumerReadsLiveNodes | src/include/common/LockFreeQueue.h:66-88 | the consumer never reads a node it has deleted |
| EventLoop.SoleProducerIsSafe | src/include/common/LockFreeQueue.h:41-88 | as long as only one thread has called `EnQueue`, no thread ever touches a deleted node |
| EventLoop.DeletedNodeIsRead | src/include/common/LockFreeQueue.h:49-83 | an interleaving of two producers and the consumer that ends with a producer about to read a node the consumer has deleted |
| EventLoop.GuardedDequeue | src/coroutine/Scheduler.cpp:160-163 | under the size guard the counter never exceeds the pending nodes outside `Dequeue`, never wraps, the successor read is never null, and the default element is never returned |
| EventLoop.DeliveredInOrder | src/include/common/LockFreeQueue.h:41-88 | over whole runs: each node is delivered at most once, in link order, and each producer's deliveries are a prefix of what it enqueued |
| EventLoop.NoLostWakeUp | src/coroutine/Scheduler.cpp:141-168 | with something pending while the loop is in or on its way into the wait, the eventfd is readable or a producer has its state check or write ahead of it |
| EventLoop.QuiescentMeansDrained | src/coroutine/Scheduler.cpp:141-168 | if the loop waits, the eventfd is zero and all other threads are idle, everything ever enqueued has been delivered |
| EventLoop.NoLostStop | src/coroutine/Scheduler.cpp:191-201 | along any run from a state with the stop flag set, until the next start clears it: the loop is not at the wait unless it has been there all along, and then it has been written to, or a stopper has its check or write ahead of it; the next test of the flag leaves the loop |
| EventLoop.StopIsSticky | src/coroutine/Scheduler.cpp:137-141 | the stop flag stays set until the next start, no step enters the wait while it is set, and testing it then leaves the loop |
| EventLoop.StopTakesEffect | src/coroutine/Scheduler.cpp:191-201 | along any run after a call of `Stop`, until the next start clears the flag: once the call has returned the flag is set; as soon as it is set, a loop at the wait has been written to or is about to be, and the next test of the flag leaves the loop |
| Progress.FinishesAlone | src/include/common/LockFreeQueue.h:41-64 | from every reachable state, whatever the other threads have left half done, a thread that runs alone returns from its call within fourteen steps, and the call has had exactly its effect |
| Progress.EnQueueAlone | src/include/coroutine/Scheduler.h:72-78 | a whole undisturbed call appends exactly its task, counts it, leaves the tail at the new node, and writes to the eventfd exactly if the state word is that of the wait or of a loop that is not running |
| Progress.StopAlone | src/coroutine/Scheduler.cpp:191-201 | a whole undisturbed call of `Stop` sets the flag, and writes to the eventfd exactly if it set it and the state word is that of the wait |
| Progress.LoopSettles | src/coroutine/Scheduler.cpp:138-187 | the loop thread, undisturbed from any reachable state, comes to rest: it leaves if the flag was set and else waits, has taken every counted task on its way, and has the flag, the counter and the eventfd as the code leaves them |
| Progress.TimeoutIsIdle | src/coroutine/Scheduler.cpp:141-143 | a wait that times out changes nothing |
| Progress.ConsumerNeverRetries | src/include/common/LockFreeQueue.h:66-88 | in every reachable state the single consumer finds the head unmoved, so its head swap succeeds |
| Progress.ForeignCode | src/coroutine/Scheduler.cpp:143-187 | callbacks and tasks may call in exactly four places of the loop; it ends only through the sweep; a wake-up by the eventfd is followed by reading it before the drain loop |
| Progress.EverythingCanBeDelivered | src/coroutine/Scheduler.cpp:132-169 | no deadlock: from every reachable state, without any new call, a run leads to a state in which all calls have returned, every task ever passed to `EnQueue` has been delivered in its thread's order, and the eventfd is zero |
| SkipList.LessMeans | src/dataStruct/SkipList.cpp:120-122 | the comparison of the walk holds exactly for a smaller score, or for the same score and a string that ends first or has the smaller character where the two first differ |
| SkipList.LessOrder | src/dataStruct/SkipList.cpp:120-122 | that comparison is a strict total order |
| SkipList.SkipList.Ascending | src/dataStruct/SkipList.cpp:120-126 | on every list that insertions and deletions keep exact, scores ascend, and within one score strings ascend from their first difference on |
| SkipList.BeforeCounts | src/dataStruct/SkipList.cpp:120-126 | the rank of a key is the number of entries with a smaller score, or with the same score and a smaller string |
| SkipList.SkipList.constructor | src/include/dataStruct/SkipList.h:121-124 | a new list is valid and empty |
| SkipList.SkipListNode.SetNext | src/include/dataStruct/SkipList.h:58-69 | replaces one level's next pointer and returns the previous one |
| SkipList.SkipListNode.SetSpan | src/include/dataStruct/SkipList.h:54 | replaces one level's span |
| SkipList.InsertLevel | src/dataStruct/SkipList.cpp:18-28 | on any level, passing over or linking in a node keeps every next pointer the first later node of that height and every span the distance to it |
| SkipList.RemoveLevel | src/dataStruct/SkipList.cpp:51-64 | the same for a node that leaves |
| SkipList.SkipList.WalkLevel | src/dataStruct/SkipList.cpp:120-126 | the walk along a level ends at the level's last node before the key, with its exact rank |
| SkipList.SkipList.StartLevel | src/dataStruct/SkipList.cpp:112-119 | which rank a level's walk starts from, and that new levels are opened with the full distance |
| SkipList.SkipList.GetUpdateVec | src/dataStruct/SkipList.cpp:107-128 | `update[i]` is the last node before the key on every level and `rank[i]` its position; levels above the live ones are opened correctly |
| SkipList.SkipList.Insert | src/dataStruct/SkipList.cpp:9-42 | for any level below 255 on a valid list: the list stays valid (all chains sorted and nested, all spans exact, including levels just opened); on a list that deletions have left, for any level below the counter: the levels below the counter stay exact; in both cases the new node is fresh, enters after the last smaller key, the number returned is its 1-based position, one more than the number of entries of smaller score, or of equal score and smaller string, the keys gain exactly the new one, back pointers and tail follow |
| SkipList.SkipList.Splice | src/dataStruct/SkipList.cpp:13-28 | with the new node in place, the relinked and widened towers satisfy the invariant on every level below the counter, and are valid if the list was |
| SkipList.SkipList.LinkBack | src/dataStruct/SkipList.cpp:34-39 | which back pointer or tail pointer moves |
| SkipList.InsertAddsKey | src/dataStruct/SkipList.cpp:9-42 | the multiset of keys gains exactly the inserted key |
| SkipList.SkipList.Find | src/dataStruct/SkipList.cpp:79-90 | whenever the levels below the counter are exact, as in a valid list and after deletions that leave a node: a node is returned exactly when the counter is not 0 and the key is present, with its 1-based position whichever level it is met on, the first of the highest nodes if several have the key; nothing changes |
| SkipList.SkipList.Unlink | src/dataStruct/SkipList.cpp:44-64 | whenever the levels below a counter of at least 1 are exact: for a present key the node is cut out of every level below the counter and the rest is exact on these levels as the sequence without it, and valid if it was; for an absent key nothing changes |
| SkipList.SkipList.NarrowLevels | src/dataStruct/SkipList.cpp:51-57 | the levels above the leaving node are shortened by one, and the loop stops at its topmost level |
| SkipList.SkipList.JoinLevels | src/dataStruct/SkipList.cpp:59-64 | on the leaving node's levels the predecessor takes over its link, with the joined span |
| SkipList.SkipList.Delete | src/dataStruct/SkipList.cpp:44-77 | whenever the levels below a counter of at least 1 are exact: an absent key changes nothing; a present one leaves the list without its first node with that key, one shorter; the levels below the old counter stay exact, as the next call needs; from a valid list the counter ends at the highest level in use (255 when empty), so the list is valid if and only if it is empty; back or tail pointers are left dangling |
| SkipList.SkipList.Trim | src/dataStruct/SkipList.cpp:65-71 | the counter loop as an unsigned byte: it ends at the highest level in use, or at 255 |
| SkipList.HighestInUse | src/dataStruct/SkipList.cpp:65-71 | some node is taller than the highest level in use, so that value is one too low as a level count, for every list that is not empty |
| SkipList.DeleteThenFind | src/dataStruct/SkipList.cpp:44-90 | two entries of one level, one deleted: the counter is 0, the list is not valid, and the entry that is left is not found |
| SkipList.DeleteBreaksBackPointers | src/dataStruct/SkipList.cpp:51-76 | after any removal the back pointer of the next node, or the tail pointer, is wrong |
| HashTable.MaskOfMask | src/dataStruct/hash.cpp:104-109 | a bucket number under a smaller mask follows from the one under a larger mask, as the branch for shrinking tables assumes |
| HashTable.BucketOfKey | src/include/dataStruct/Hash.h:196 | exponent n means 2^n buckets, and a key's bucket is its hash modulo that |
| HashTable.MoveHolds | src/dataStruct/hash.cpp:100-119 | moving the first entry of a bucket to the other table keeps the two tables together one map, no key twice, each entry in the bucket of its hash |
| HashTable.InsertHolds | src/include/dataStruct/Hash.h:168-182 | a new entry in front of its bucket keeps the same |
| HashTable.DeleteHolds | src/dataStruct/hash.cpp:36-49 | taking an entry out of its bucket keeps the same for the map without its key |
| HashTable.PushFront | src/include/dataStruct/Hash.h:175-180 | what linking an entry in front of a bucket does to the bucket head and to the pointers of every entry |
| HashTable.PushChain | src/include/dataStruct/Hash.h:175-180 | after that the bucket is the old chain behind the new entry, linked both ways |
| HashTable.UnlinkEntry | src/dataStruct/hash.cpp:39-46 | what unlinking does to bucket head and neighbours |
| HashTable.UnlinkChain | src/dataStruct/hash.cpp:39-46 | the chain without the entry is linked both ways again |
| HashTable.HashTable.constructor | src/include/dataStruct/Hash.h:263-271 | a new table is valid and stands for the empty map |
| HashTable.HashTable.TargetBucket | src/dataStruct/hash.cpp:103-109 | both branches give the bucket of the entry's hash under the second table's mask |
| HashTable.HashTable.ReHash | src/dataStruct/hash.cpp:94-131 | the map and the total count are unchanged; exactly the bucket under the cursor leaves the first table, and the cursor advances by one and stays in the table if anything is left there, else the second table takes over |
| HashTable.HashTable.ExpendSize | src/dataStruct/hash.cpp:141-151 | the result exceeds the current exponent, leaves room for four times the entries, and is the least such |
| HashTable.HashTable.ExpendOrReduce | src/dataStruct/hash.cpp:153-164 | creates the first table, or starts a rehash, with the map unchanged |
| HashTable.HashTable.Lookup | src/dataStruct/hash.cpp:30-56 | finds the entry of a key in whichever table holds it, with its place in the chain, or shows that there is none |
| HashTable.HashTable.FindBucketByKey | src/dataStruct/hash.cpp:59-92 | the entry of the key, or the bucket a new one belongs in with room left under the load bound; a rehash starts exactly if none goes on and there is an entry per bucket, into the least larger table with room for four times the entries |
| HashTable.HashTable.FindByKey | src/dataStruct/hash.cpp:11-18 | agrees with the map, which is unchanged, in every state of a rehash; starts a rehash exactly if none goes on and there is an entry per bucket |
| HashTable.HashTable.InsertToBucket | src/include/dataStruct/Hash.h:168-182 | the map gains exactly the new entry, in front of its bucket of the newest table |
| HashTable.HashTable.Insert | src/include/dataStruct/Hash.h:124-131 | null and no change for a present key, otherwise a fresh entry and the map with it; during a rehash the first table only loses the bucket under the cursor; a rehash starts exactly if none goes on and there is an entry per bucket |
| HashTable.HashTable.Delete | src/dataStruct/hash.cpp:20-57 | the map loses exactly the key, from the table that holds it; a rehash starts exactly if none goes on and at most half as many entries as buckets are there, and always into a larger table |
| HashTable.DeleteFromEmpty | src/dataStruct/hash.cpp:20-28 | n deletions from a new table, n at least 2: every one ends a rehash and starts the next, and the exponents are n + 2 and n + 3 |
| HashTable.LoadFactor | src/dataStruct/hash.cpp:133-164 | in every valid state: idle, at most one entry per bucket; rehashing, all entries together at most 2^size0 + cursor + 1, which the second table has buckets for |
| HashTable.Run | src/dataStruct/hash.cpp:11-131 | any run of operations replies like a plain map and ends with its contents, valid and within load factor 1 throughout; a rehash is over after as many operations as its first table has buckets left |
| HashTable.Perform | src/dataStruct/hash.cpp:11-131 | one operation refines the plain map and advances a rehash |
| HashIterator.OrderExact | src/dataStruct/hash.cpp:166-189 | the iteration order holds every entry of both tables exactly once and nothing else |
| HashIterator.HashIterator.Next | src/dataStruct/hash.cpp:166-189 | goes to the next entry of the order, across buckets and tables, and to null after the last |
| HashIterator.HashIterator.Prev | src/dataStruct/hash.cpp:191-224 | goes to the previous entry of the order, and to null before the first |
| HashIterator.HashIterator.MReset | src/dataStruct/hash.cpp:226-257 | goes to the first entry, unless a rehash is under way with an empty first and non-empty second table, exactly when it reads out of bounds |
| HashIterator.VisitAll | src/dataStruct/hash.cpp:166-257 | reset and repeated next terminate and meet every stored entry exactly once, mid-rehash too |
| HashIterator.ThereAndBack | src/dataStruct/hash.cpp:166-224 | previous undoes next and next undoes previous, and when each can move |
| HashIterator.Stranded | src/dataStruct/hash.cpp:244-251 | for any hash with a key outside the first two of sixteen buckets: insert it, delete an absent key, insert another, delete the first; reset then reads out of bounds |
| Serializer.GraphRoundTrip | src/include/serialize/type/memory.h:15-37 | writing any finite graph with sharing, nulls and cycles and reading the bytes, whatever follows, gives an isomorphic copy of the reachable part and leaves exactly what followed |
| Serializer.RoundTrip | src/include/serialize/type/memory.h:15-83 | from any registration state: writer and reader counters agree at every position, and exactly the newly met objects are rebuilt |
| Serializer.RegistersExactlyReachable | src/include/serialize/Serializer.h:27-41 | the writer registers an address if and only if the root reaches it |
| Serializer.WriteTable | src/include/serialize/Serializer.h:27-41 | numbers are consecutive, injective and never change once given |
| Serializer.ReadExtends | src/include/serialize/StringSerializer.h:46-52 | reading depends only on what it consumes |
| Serializer.StrictPrefixRejected | src/include/serialize/StringSerializer.h:46-52 | every strict prefix of an encoding is rejected |
| WireFormat.Layout | src/include/serialize/type/memory.h:15-23 | the bytes of every kind of value: little-endian eight-byte lengths, counts and object numbers, the top bit set on a new object's, two-byte tags of unique pointers |
| WireFormat.PointerTags | src/include/serialize/type/memory.h:25-83 | what a reader makes of any pointer tag: a unique pointer is absent exactly if both bytes are zero; the top bit says whether an object follows; an unknown number is null |
| WireFormat.LengthTags | src/include/serialize/type/tuple.h:35-45 | a tuple is read only under its own field count; words, strings and vectors exactly if all their bytes are there |
| Serializer.TupleReadsBack | src/include/serialize/type/tuple.h:14-45 | a counted tuple reads back, with its count check |
| Serializer.VectorReadsBack | src/include/serialize/type/vector.h:14-33 | a length-tagged arithmetic vector reads back |
| Serializer.FlatReadsBack | src/include/serialize/type/string.h:13-32 | fixed-width words and length-tagged strings read back |
| Serializer.PresentReadsBack | src/include/serialize/type/memory.h:62-83 | a non-null unique pointer reads back |
| Archive.SerializeBase.RegisterPtr | src/include/serialize/Serializer.h:27-41 | null is 0, a known address keeps its number, a new one gets the next number, returned with the top bit, 2^63, added; the two maps stay inverse to each other |
| Archive.SerializeBase.GetPtr | src/include/serialize/Serializer.h:43-49 | the inverse of `RegisterPtr`: numbers given out so far lead to the one address registered under them, all others to null |
| Archive.StringSerialize.OutPut | src/include/serialize/StringSerializer.h:25-27 | appends the bytes |
| Archive.StringSerialize.Put | src/include/serialize/Serializer.h:66-77 | appends exactly the specified encoding and updates the registry to the specified one |
| Archive.StringSerialize.PutShared | src/include/serialize/type/memory.h:15-23 | the same for a shared pointer; the eight bytes in front of a new object are its number plus 2^63 |
| Archive.StringSerialize.PutAll | src/include/serialize/Serializer.h:66-71 | the same for several arguments |
| Archive.StringDeSerialize.Input | src/include/serialize/StringSerializer.h:46-52 | takes the bytes, or fails and leaves the input alone when fewer are left |
| Archive.StringDeSerialize.Get | src/include/serialize/Serializer.h:107-118 | succeeds exactly when the specified parse does, with its value, rest and registry |
| Archive.StringDeSerialize.GetShared | src/include/serialize/type/memory.h:25-37 | the same for a shared pointer |
| Archive.StringDeSerialize.GetAll | src/include/serialize/type/tuple.h:14-45 | the same for several slots in order |
| Bytes.LeRoundTrip | src/include/serialize/StringSerializer.h:33-61 | fixed-width little-endian images of numbers that fit read back |
| Bytes.LeDigits | src/include/serialize/StringSerializer.h:33-61 | byte i of a little-endian image is the digit of weight 256^i |
| Bytes.BeDigits | src/include/common/codeC/Codec.h:63-67 | in network order the digit of highest weight comes first |
| Bytes.BeRoundTrip | src/include/common/codeC/Codec.h:51-64 | the same in network byte order |
| RingBuffer.RingBuffer.constructor | src/include/common/buffer/RingBuffer.h:66-69 | a new buffer is valid, holds nothing and has 2048 bytes |
| RingBuffer.RingBuffer.Peek | src/common/RingBuffer.cpp:38-61 | the first bytes held, or all; nothing changes |
| RingBuffer.RingBuffer.Read | src/common/RingBuffer.cpp:14-36 | the same bytes, and exactly they are gone |
| RingBuffer.RingBuffer.Write | src/common/RingBuffer.cpp:81-97 | the contents grow by exactly the data, across wrap-around and relocation |
| RingBuffer.RingBuffer.Clear | src/include/common/buffer/RingBuffer.h:38-42 | the contents are gone |
| RingBuffer.RingBuffer.UpdateAfterRead | src/common/RingBuffer.cpp:99-108 | the marker arithmetic drops exactly a prefix and keeps the representation invariant |
| RingBuffer.RingBuffer.UpdateAfterWrite | src/common/RingBuffer.cpp:110-120 | the marker arithmetic after a write keeps the representation invariant |
| RingBuffer.RingBuffer.EnableWritableSpace | src/common/RingBuffer.cpp:122-150 | up to 2048 bytes the capacity is doubled, above that 1024 is added, until it is at least the need and no further; relocation keeps the contents |
| RingBuffer.FillAppends | src/common/RingBuffer.cpp:81-120 | filling the free space from the end marker on, around the end, appends to the queue, in both representations of "full" |
| RingBuffer.DropLeaves | src/common/RingBuffer.cpp:99-108 | moving the begin marker drops a prefix of the queue |
| RingBuffer.FetchInBounds | src/common/RingBuffer.cpp:152-174 | the ranges of a fetch stay in the array if and only if not both the end marker is at the capacity and the begin marker is not zero |
| RingBuffer.FetchTotal | src/common/RingBuffer.cpp:152-174 | the ranges of a fetch add up to the free space, and 1024 bytes more if less than that is free |
| RingBuffer.FillReadFetch | src/common/RingBuffer.cpp:152-171 | a new buffer filled to its capacity and read by one byte: the next fetch is out of bounds |
| RingBuffer.FetchFills | src/common/RingBuffer.cpp:152-185 | what the kernel scatters over the ranges is, in order, what a write would put there, and the rest lies at the start of the spill area |
| RingBuffer.RingBuffer.FetchDataFromFd | src/common/RingBuffer.cpp:152-187 | for any bytes delivered up to the total length, exactly they are appended, spill area included; on failure or an out-of-bounds range nothing changes |
| RingBuffer.RingBuffer.FlushDataToFd | src/common/RingBuffer.cpp:189-213 | the contents are offered in order and exactly the accepted prefix is dropped |
| RingBuffer.Readv | src/common/RingBuffer.cpp:176 | a vectored read fills the ranges in order |
| Codec.DefaultCodeC.Encode | src/include/common/codeC/Codec.h:63-67 | appends the length of the message in four bytes, highest first, and then the message |
| Codec.DefaultCodeC.Decode | src/include/common/codeC/Codec.h:45-61 | takes the first frame and returns its message; on an incomplete frame the contents are unchanged |
| Codec.DecodeStream | src/include/common/codeC/Codec.h:45-67 | decoding any prefix of a stream of frames gives its first message as soon as that is complete, and nothing before |
| Codec.ChunksDoNotMatter | src/include/common/codeC/Codec.h:45-67 | for any cut into pieces and any interleaving of polls, the non-empty results are those of the first k messages, and these frames and the buffered bytes are what has arrived |
| Codec.DeliveredIsPrefix | src/include/common/codeC/Codec.h:45-67 | the non-empty results are always a prefix of the non-empty messages |
| Codec.EverythingArrives | src/include/common/codeC/Codec.h:45-67 | once all bytes are in, enough polls deliver everything and leave nothing buffered |
| Codec.RunOn | src/include/common/codeC/Codec.h:45-67 | a run on the ring buffer has the results and leaves the bytes of the specified run |
| Codec.EncodeAll | src/include/common/codeC/Codec.h:63-67 | sending a list of messages appends its stream |
| Crc32.TableEntry | src/include/common/Crc32.h:11-40 | every one of the 256 table entries is its index shifted through the generator by eight bits |
| Crc32.TableStep | src/common/Crc32.cpp:10-13 | one step of the byte loop is eight bit-serial steps |
| Crc32.GenerateCrc32 | src/common/Crc32.cpp:8-15 | the table-driven loop computes the bit-serial register |
| Crc32.CheckCec32 | src/common/Crc32.cpp:17 | accepts exactly the messages whose register ends at zero |
| Crc32.CrcIsTheRemainder | src/common/Crc32.cpp:8-15 | a value is the checksum if and only if it is the remainder, with some quotient, of the message times x^32 by the generator |
| Crc32.DivisionUnique | src/common/Crc32.cpp:8-15 | quotient and remainder are unique |
| Crc32.CrcBitsLinear | src/common/Crc32.cpp:8-15 | the checksum is linear over exclusive or |
| Crc32.BurstDetected | src/common/Crc32.cpp:8-15 | two messages of one length that differ, but only within 32 consecutive bits, have different checksums |
| Crc32.ChecksExactly | src/common/Crc32.cpp:17 | four bytes after a message make it check if and only if they are its checksum, highest byte first |

## Left out

- Memory ordering of the atomics (sequential consistency is assumed), reuse of a node's address after it is deleted, and
  more than one consumer.
- EventLoop.NeverStuck: a deleted node keeps its last contents in the model. Which steps touch one is stated exactly
  (`TouchesDeletedExactly`); what such a step does in memory is not modelled.
- Upper overflow of the queue's size counter, of the eventfd, and of other 32-bit lengths, exponents and counts: these are
  unbounded numbers, except the skip list's level, the codec's length field, and decrements, which are modelled at their
  width.
- Epoll and sockets: the wait may return whenever the eventfd is readable, or at any time for another descriptor or a
  timeout. The stop callback, the running of tasks and callbacks, and the sweep at the end of the loop are foreign code
  that may itself enqueue and stop. `AddTask` on the loop thread, which runs its argument at once, is not a queue operation.
- `MultiThreadScheduler`, the thread handshake, timers, hooks, coroutine contexts and the shared stack.
- SkipList.SkipList.Insert: on a list that deletions have left, only levels below the counter are specified. From the
  counter on the code opens levels that may already hold nodes, and overwrites the head's span there; what the ranks are
  then is not modelled, nor is `Modify`, a deletion and an insertion. The level is an argument below 255; a random level of 255 makes the level counter wrap, and the random generator
  is not modelled. The list's ordering of strings is by character.
- SkipList.SkipList.Delete: requires a counter of at least 1, because with 0 the code takes the first element of an empty
  vector (line 49). Ownership through the smart pointer of level 0 is not modelled.
- HashTable.HashTable.Insert: entries hold integers in place of values of any type; keys are strings without NUL, the hash
  is any function. The destructor is not modelled.
- HashIterator.HashIterator.MReset: the states in which it reads out of bounds are characterised, and four calls lead to
  one; which other sequences of calls do depends on the hash function.
- HashTable.HashTable.ExpendOrReduce: the exponent is unbounded; the code shifts a 32-bit 1 by it.
- Serializer.GraphRoundTrip: machine words are images of fixed width, little-endian on the wire; two shared pointers with
  one address are one pointer; the k-th object the reader makes is called k, and its contents are recorded when complete
  rather than filled in place; decoding starts from empty targets. A failed read inside a function that may not throw ends
  the program; here it is an error result.
- The load-and-construct variants, weak pointers and element-wise vectors of the archive.
- Archive.StringSerialize.Put: vectors are written in the format of the overload for arithmetic elements (`vector.h:14-22`),
  which is enabled for the binary archive alone. For the string archive the element-wise overload would be selected, whose
  body names an undeclared `ar`.
- Archive.StringDeSerialize.Get: the same for reading vectors (`vector.h:24-33`).
- RingBuffer.RingBuffer.FetchDataFromFd: the kernel is the parameter that says which bytes arrive, or that the call fails.
- RingBuffer.RingBuffer.FlushDataToFd: the kernel is the parameter that says how many bytes it takes, or that it fails.
- Codec.DefaultCodeC.Encode: messages are shorter than 2^32 bytes, the range of the length argument.
- Crc32.GenerateCrc32: the loop counter is unbounded. The table is laid out in rows of sixteen.
- `EVBuffer`, `ReentrantMutex`, the logging code and the RPC layers above these components.
