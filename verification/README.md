# Verified models of the trunk libraries

This project models the algorithmic core of a C++ utility library in Dafny and proves what that core is meant
to provide. `dafny verify dfyconfig.toml` checks all of it.

Code that the library writes as classes, loops and in-place updates is modelled the same way: classes with the
library's fields, arrays and loops. Each such method is proved equal to a function on plain values, and the
laws of the component are lemmas about those functions, for every input, every run and every random choice.

## What is modelled

**Rope** (`RopeTree`, `RopeHeap`, `RopeText`). A treap of uniquely owned nodes with 4096-byte buffers. `RopeHeap`
works on the nodes in place and is proved to do to them what `RopeTree` does to the tree they stand for.
`RopeTree` proves that insert, erase and copy are splice, cut and slice of a string through every spill, rotation
and merge, that every cached left size stays right, that no buffer overflows, and that insert ends (its measure
is the bytes to insert, then the bytes in the subtree, then its nodes). `RopeText` lifts this to whole runs of
calls. Priorities come from an arbitrary tape.
Heap order is not a law of this code, because each level rotates only once. What one rotation repairs is stated
exactly (`BalanceLeftOrdersIff`, `BalanceRightOrdersIff`). `merge`, and an erasure within one node, keep the order
if and only if a stated condition on their arguments holds (`MergeKeepsHeapOrderIff`, `EraseHeapOrderIff`). A string
of three buffers inserted into an empty rope breaks it if and only if the three priorities drawn increase
(`TripleInsertHeapOrderIff`), and an insert that fits behind its insertion point always keeps it
(`FittingInsertKeepsHeapOrder`).

**Cuckoo filter** (`Bits`, `HashFilter`, `HashFilterTrace`, `HashFilterInPlace`). The stored items are a multiset of
(fingerprint, unordered pair of buckets). Kick chains of any length and any seeds conserve it, so what is lost is
exactly one item per call that returned false. `HashFilterTrace` tells entry by entry where an insert puts what, and
that it fails if and only if both buckets are full and 512 kicks meet full buckets only.

**Sorted string table** (`Bytes`, `MemoryFile`, `SSTableFormat`, `SSTableBytes`, `SSTableBuilding`, `SSTableReading`,
`SSTableSearch`, `SSTableIteration`, `SSTablePipeline`). Builder, byte layout, index, binary search, scan and
iteration over the in-memory file. Building, loading and looking up is linear search in the list of added entries;
iterating gives back the list. `SSTableBytes` gives every byte of a file by its position.

**Timer list** (`TimerMachine`, `TimerTrace`, `TimerList`). One system timer for many timers of the same duration, as
a machine of small steps that includes handlers queued before the timer was set again and callbacks that schedule,
update and cancel. The class is proved to take only steps of that machine, and its handler to leave nothing that was
due. `TimerTrace` states what callers see in terms of their calls, the clock and the callbacks alone: which timers are
pending, when each may fire, and that none fires early, twice, after it was cancelled, or not at all. Ids stand for
`Timer` objects and handles.

**Rate limiter** (`RateMachine`, `RateBudget`, `RateBacklog`, `RateLimiter`). A token bucket with prepayment, a queue
and updates at the scheduled time. Every run keeps an exact account: the time that passes is what is spent, what is
kept, and what the cap takes. Over every run of `acquire` calls, each waiting request is granted at exactly the ring
that its cost and the costs before it call for. In sizes the limit holds up to the rounding of each cost: a cost is
rounded down to nanoseconds, and at a rate of 2000000000 a request of size 1 costs nothing. If the rate divides the
sizes (times 10^9), the limit is exact (`SizesBound`).

**RPC over datagrams** (`RpcWire`, `RpcCall`, `RpcClientState`, `RpcClient`, `RpcServerState`, `RpcServer`,
`RpcSystem`, `RpcSafety`, `RpcLifetime`, `RpcOutcomes`, `RpcProgress`, `RpcLimits`, `Fibonacci`, `RetrySchedule`).
Clients and a server over a network that loses, duplicates, delays and reorders datagrams. A datagram stays under way
until the network loses its last copy. The results are about every run:

- `RpcSafety`: a reply given to a callback is the answer of a handler that was called with exactly the client's
  request and method.
- `RpcLifetime`: an operation lives as long as a handler refers to it. At most one handler of its timer is pending;
  when nothing refers to it any more it has finished; its callback is called then, exactly once, after a number of
  handlers that the closed form of the Fibonacci sums bounds.
- `RpcOutcomes`: what a caller and a handler get, in terms of the events alone: a reply was given in an answer to
  exactly the call that was requested; a failure is that of a wait; a timeout comes after exactly the sends that the
  timeout allows; and no nonce seals two different datagrams of a call.
- `RpcProgress`, `RpcLimits`: in a reachable state a call can still succeed if and only if the server knows its key
  and method, and either time is left for another send or what was sent and not lost is enough. With time left, one
  more send succeeds even if everything under way is lost.

**Codecs** (`Utf`, `UtfLaws`, `IcmpChecksum`). The UTF-16/UTF-8 converters, with the byte patterns of section 3 of
RFC 3629 and surrogate units coded one by one as the code does, and the ICMP echo checksum of section 1 of RFC 1071.

`Arithmetic`, `Options` and `Sequences` hold what several of these share.

## Assumptions

- The authenticated encryption (section 2.8 of RFC 8439) is symbolic: a body opens with the key and nonce it was
  sealed with and with no others, and yields the plaintext. A failed attempt may leave any bytes in the buffer.
- Set of covered offsets: the interval set of the RPC code is modelled as the set of numbers it covers.
- The network does not alter or forge datagrams.
- Operation keys (key fingerprint, request id) are not reused. The code only avoids those in use at the moment.
- A server operation is dropped only after its client operation has finished. In the code it lives for one minute.
- Preconditions of the RPC results: fragment sizes are positive, fragments fit the receive buffer of the other side,
  the last fragment offset fits 16 bits, methods contain no zero byte, and handlers call back once. The two
  conditions on messages are shown to be necessary as well (`PiecesIffOffsetsFit`, `SplitEncodeIff`).
- Tables that are searched or iterated come from files that the builder wrote, and sizes fit the 32-bit fields. Keys
  are nondecreasing wherever lookup or seek is claimed. Blocks over 16777216 bytes are written but not loaded, and
  that is what is stated.
- Timer durations are not negative and the clock does not go back. The rate and capacity of the limiter are positive
  and its costs do not overflow 64 bits.
- Callbacks are arbitrary finite lists of calls. Random numbers are arbitrary parameters.

## Model

| member | source | states |
|---|---|---|
| `RopeTree.RotateLeftKeeps` | util/rope.cc:154-160 | a left rotation keeps the text, every cached left size and the buffer bound |
| `RopeTree.RotateRightKeeps` | util/rope.cc:162-168 | a right rotation does the same, and its subtraction of sizes never underflows |
| `RopeTree.BalanceLeftKeeps` | util/rope.cc:134-142 | balancing the left spine keeps the text |
| `RopeTree.BalanceRightKeeps` | util/rope.cc:144-152 | balancing the right spine keeps the text |
| `RopeTree.InsertSplices` | util/rope.cc:20-57 | for every tree, index and string of any length, the text becomes the old text with the string spliced in |
| `RopeTree.LandSplices` | util/rope.cc:40-57 | the landing node, with both spills, splices its own bytes between the texts of its subtrees |
| `RopeTree.SpillOnce` | util/rope.cc:40-45 | moving the node's tail to the right subtree keeps the text in order and the node within 4096 bytes |
| `RopeTree.SpillTwice` | util/rope.cc:46-51 | when the string itself is too long, its rest goes between the node and the moved tail |
| `RopeTree.SpillSteps` | util/rope.cc:40-56 | an overflow moves the node's tail right, then the rest of the string, and leaves the landing node full with exactly 4096 bytes |
| `RopeTree.MergeJoins` | util/rope.cc:122-132 | a merge holds the first text followed by the second |
| `RopeTree.EraseCuts` | util/rope.cc:59-92 | for every valid range over left subtree, node and right subtree, exactly that range is cut out of the text |
| `RopeTree.CopyReads` | util/rope.cc:94-120 | a copy is exactly the slice asked for |
| `RopeTree.MergePacked` | util/rope.cc:122-132 | merging trees without empty nodes gives one without |
| `RopeTree.ErasePacked` | util/rope.cc:59-92 | erasing from a tree without empty nodes leaves no empty node |
| `RopeTree.InsertPacked` | util/rope.cc:20-57 | inserting a non-empty string leaves no empty node, even where a spill of zero bytes creates one on the way |
| `RopeTree.BalanceLeftIdentity` | util/rope.cc:134-142 | balancing an ordered left spine changes nothing |
| `RopeTree.BalanceRightIdentity` | util/rope.cc:144-152 | balancing an ordered right spine changes nothing |
| `RopeTree.BalanceLeftOrdersIff` | util/rope.cc:134-142 | over ordered subtrees the single rotation restores heap order if and only if the left child or its right child does not outrank the root |
| `RopeTree.BalanceRightOrdersIff` | util/rope.cc:144-152 | the mirror image |
| `RopeTree.FittingInsertKeepsHeapOrder` | util/rope.cc:26-57 | if the string fits behind the insertion point in its landing node, at most one node is created along the whole cascade and the tree stays heap ordered |
| `RopeTree.FittingLand` | util/rope.cc:40-57 | the same at the landing node; without overflow the node alone changes |
| `RopeTree.MergeKeepsHeapOrderIff` | util/rope.cc:122-132 | merging two ordered trees keeps heap order if and only if the left child of the second does not outrank the last node of the first |
| `RopeTree.SettleKeepsHeapOrderIff` | util/rope.cc:88-92 | a node that ran empty is replaced by its merged children, in heap order if and only if it still has bytes, a child is missing, or the merge of the children keeps their order |
| `RopeTree.EraseHeapOrderIff` | util/rope.cc:59-92 | erasing bytes of one node, however deep, keeps heap order if and only if the node keeps some of its bytes or its children merge in order |
| `RopeTree.TripleInsertHeapOrderIff` | util/rope.cc:40-57 | a string of three buffers put into an empty rope leaves heap order broken if and only if the three priorities drawn increase |
| `RopeHeap.RotateLeft` | util/rope.cc:154-160 | the link updates do to the nodes what the rotation does to the tree and keep the set of nodes |
| `RopeHeap.RotateRight` | util/rope.cc:162-168 | the same for the right rotation |
| `RopeHeap.BalanceLeft` | util/rope.cc:134-142 | the nodes become the balanced tree, none lost or shared |
| `RopeHeap.BalanceRight` | util/rope.cc:144-152 | the mirror image |
| `RopeHeap.MoveIn` | util/rope.cc:53-54 | the two memory moves leave the buffer with the string spliced in at the index |
| `RopeHeap.MoveOut` | util/rope.cc:75-76 | the memory move leaves the buffer with the range cut out |
| `RopeHeap.Insert` | util/rope.cc:20-57 | insert on owned nodes ends, draws the same priorities and yields nodes that hold the inserted tree, old nodes or fresh ones only |
| `RopeHeap.Spill` | util/rope.cc:40-56 | the overflow branch on the nodes, both spills and the write |
| `RopeHeap.Merge` | util/rope.cc:122-132 | the nodes of both trees, and no others, hold the merged tree |
| `RopeHeap.Prune` | util/rope.cc:59-87 | up to the label the same root stays, with the range taken out of left subtree, buffer and right subtree |
| `RopeHeap.Erase` | util/rope.cc:59-92 | erase on owned nodes yields the erased tree and adds no node |
| `RopeHeap.Copy` | util/rope.cc:94-120 | copy writes the slice at its place in the destination, keeps the rest of it and leaves the nodes alone |
| `RopeText.Rope.Insert` | util/rope.cc:8-10 | the rope's text becomes the spliced text; no empty node, and heap order in the fitting case |
| `RopeText.Rope.Erase` | util/rope.cc:12-14 | the rope's text becomes the cut text, without empty nodes |
| `RopeText.Rope.Copy` | util/rope.cc:16-18 | the destination starts with the slice and is unchanged behind it |
| `RopeText.RunRefinesText` | util/rope.cc:8-57 | every run of inserts and erases leaves exactly the text that plain string edits give, for every tape of priorities |
| `RopeText.RunKeepsPacked` | util/rope.cc:8-92 | if only non-empty strings are inserted, no run leaves an empty node |
| `HashFilter.PartnerBelow` | util/hash-filter.cc:43 | the other bucket of a fingerprint is within the table |
| `HashFilter.PartnerKeepsItem` | util/hash-filter.cc:43-54 | the other bucket of the other bucket is the first, so moving a fingerprint does not change its item |
| `HashFilter.SlotInRound` | util/hash-filter.cc:49-52 | kick j of a round uses bits 2j and 2j+1 of the round's seed |
| `HashFilter.AddItems` | util/hash-filter.cc:76-84 | filling a free entry adds exactly the fingerprint's item |
| `HashFilter.ChainSwaps` | util/hash-filter.cc:51-55 | a chain swaps the carried fingerprint with the entry that the seed picks and goes on with that entry at its other bucket |
| `HashFilter.KickConserves` | util/hash-filter.cc:51-55 | one swap changes which item is carried, not the items stored and carried together |
| `HashFilter.ChainConserves` | util/hash-filter.cc:48-60 | stored items plus the carried one are conserved by every chain of kicks from a full bucket, whatever the seeds |
| `HashFilter.InsertConserves` | util/hash-filter.cc:33-62 | after an insert, stored plus leftover equals stored before plus the new item; the leftover is empty exactly on success |
| `HashFilter.InsertOccupies` | util/hash-filter.cc:33-62 | a successful insert uses one more entry, a failed one as many as before |
| `HashFilter.TestIffStored` | util/hash-filter.cc:64-74 | a lookup answers true if and only if its item is stored |
| `HashFilter.RunConserves` | util/hash-filter.cc:33-62 | over any run stored plus lost equals stored before plus inserted, with exactly one loss per false answer |
| `HashFilter.TestAfterRun` | util/hash-filter.cc:28-74 | since a clear, a lookup is true if and only if its item was inserted more often than lost |
| `HashFilter.NoFalseNegatives` | util/hash-filter.cc:28-74 | while every insert succeeded, every inserted fingerprint is found |
| `HashFilter.ClearedIsEmpty` | util/hash-filter.cc:28-31 | a cleared table is well formed and stores nothing |
| `Bits.BitwiseAt` | util/hash-filter.cc:43-54 | exclusive or and masking act on every bit by itself |
| `HashFilterTrace.SlotIs` | util/hash-filter.cc:49-52 | kick number i takes its slot from two bits of the random number of its round |
| `HashFilterTrace.WordsOf` | util/hash-filter.cc:34-38 | what is stored is the low word, or the high word with its lowest bit set if that is 0; the first bucket is the high word modulo the number of buckets |
| `HashFilterTrace.SameItemIff` | util/hash-filter.cc:34-43 | two fingerprints are the same item if and only if the same 32 bits of them are stored and they have the same two buckets |
| `HashFilterTrace.InsertFollows` | util/hash-filter.cc:33-62 | an insert fills the first free entry of the first bucket, or else of the bucket that a trace of swaps at full buckets comes to, entry by entry; or it makes all 512 swaps and leaves the table of the last |
| `HashFilterTrace.InsertFailsIff` | util/hash-filter.cc:33-62 | an insert fails if and only if the first bucket is full and there is a trace of 513 moments from the second bucket on, each at a full bucket and one swap after the one before |
| `HashFilterInPlace.HashFilter32.constructor` | util/hash-filter.cc:21-26 | a new filter is cleared |
| `HashFilterInPlace.HashFilter32.Clear` | util/hash-filter.cc:28-31 | all entries are zero and so is the counter |
| `HashFilterInPlace.HashFilter32.Add` | util/hash-filter.cc:76-84 | the first free entry of the bucket is filled, or nothing changes if there is none |
| `HashFilterInPlace.HashFilter32.Kick` | util/hash-filter.cc:51-58 | one swap and retry advances the chain by one step |
| `HashFilterInPlace.HashFilter32.KickAll` | util/hash-filter.cc:48-61 | the nested loops in place are the chain of 16 times 32 kicks |
| `HashFilterInPlace.HashFilter32.Insert` | util/hash-filter.cc:33-62 | the array becomes that of the insert on values, the answer is false exactly when both buckets are full and 512 kicks meet full buckets only, and the 32-bit counter equals the number of non-zero entries modulo 2^32 |
| `HashFilterInPlace.HashFilter32.Test` | util/hash-filter.cc:64-74 | the answer is that of the lookup on values |
| `HashFilterInPlace.FindTwo` | util/hash-filter.cc:115-127 | true if and only if one of the two buckets holds the fingerprint |
| `MemoryFiles.Overwritten` | io/memory-file.cc:23-32 | a write replaces exactly its range, growing the content if needed, keeps every other byte and fills a gap with zeros |
| `MemoryFiles.MemoryFile.Write` | io/memory-file.cc:23-32 | content and position after a write; at the end of the file it appends |
| `MemoryFiles.MemoryFile.Pread` | io/memory-file.cc:34-47 | a read returns the bytes there are at its position, none behind the end, and an error before the start |
| `MemoryFiles.MemoryFile.Size` | io/memory-file.cc:76-79 | the size of the content |
| `Bytes.LittleAt` | db/sstable.cc:164-165 | byte i of a stored number is its digit of weight 256^i: the least significant byte comes first |
| `Bytes.LoadIs` | db/sstable.cc:30-31 | a loaded number is the sum of its bytes with these weights |
| `SSTableFormat.GroupsPartition` | db/sstable.cc:169-177 | the blocks split the added entries in order, none is empty, each fits the block size or holds a single entry, and the first entry of a block would not have fitted the block before it |
| `SSTableFormat.AddBlockDescribes` | db/sstable.cc:169-177 | the record of blocks that `add` updates gives offset, size and last key of every block |
| `SSTableBytes.EntryBytes` | db/sstable.cc:159-167 | the bytes of an entry by position: size of the key, size of the value, key, value |
| `SSTableBytes.RecordBytes` | db/sstable.cc:189-194 | the bytes of an index record by position: offset, size, size of the last key |
| `SSTableBytes.FooterBytes` | db/sstable.cc:216-219 | the bytes of the footer by position: number of blocks, size of all last keys |
| `SSTableBytes.BlockBytes` | db/sstable.cc:169-177 | a block starts behind the entries before it and is as long as its entries |
| `SSTableBytes.EntryInFile` | db/sstable.cc:159-186 | where entry j stands in a file |
| `SSTableBytes.RecordInFile` | db/sstable.cc:189-201 | where the record of block g stands in a file |
| `SSTableBytes.KeyInFile` | db/sstable.cc:202-214 | where the last key of block g stands in a file |
| `SSTableBytes.FooterInFile` | db/sstable.cc:216-220 | the file ends with the footer and holds nothing else |
| `SSTableBuilding.SSTableBuilder.Add` | db/sstable.cc:159-186 | written and buffered bytes together are the encodings of all entries so far, grouped by the block rule; the buffer is flushed when it has reached the flush size and not before |
| `SSTableBuilding.SSTableBuilder.WriteIndex` | db/sstable.cc:189-201 | appends one 16-byte record per block, flushed or not |
| `SSTableBuilding.SSTableBuilder.WriteKeys` | db/sstable.cc:202-214 | appends all last keys and counts their bytes |
| `SSTableBuilding.SSTableBuilder.Finish` | db/sstable.cc:188-221 | the file is data, index, last keys and footer, and does not depend on the flush size |
| `SSTableBuilding.SSTableBuilder.Flush` | db/sstable.cc:223-231 | the buffer moves to the end of the file |
| `SSTableReading.SSTable.Init` | db/sstable.cc:18-65 | any file, built or not: one without room for a footer, or for what the footer announces, is refused; otherwise it loads if and only if every record has a block size in range and a key within the key bytes, with the blocks and keys the records give, and the first bad record decides the error |
| `SSTableReading.BuiltIsGood` | db/sstable.cc:50-62 | the index of a built file is good if and only if no block exceeds 16777216 bytes, and that is the only error it can cause |
| `SSTableReading.BuiltDescribes` | db/sstable.cc:46-64 | what is loaded from a built file are the blocks and last keys that the builder recorded |
| `Bytes.LessAt` | db/sstable.cc:92-93 | keys compare by the first bytes that differ, as unsigned numbers, and a proper prefix comes first |
| `SSTableSearch.FirstAtLeastDecides` | db/sstable.cc:67-78 | in a sorted list the first entry not below the key decides linear search |
| `SSTableSearch.LastKeysSorted` | db/sstable.cc:92-93 | the last keys of the blocks of a sorted list are sorted, equal keys across blocks included |
| `SSTableSearch.BeforeBlock` | db/sstable.cc:92-97 | everything before the block found by the binary search is below the key |
| `SSTableIteration.LowerBound` | db/sstable.cc:93 | binary search splits sorted keys into those below the key and those not |
| `SSTableIteration.Iterator.Start` | db/sstable.cc:83-90 | places the iterator on the first entry, or reports an empty table |
| `SSTableIteration.Iterator.Seek` | db/sstable.cc:92-110 | lands on the first entry with a key not below the one sought, or reports that there is none |
| `SSTableIteration.Iterator.Next` | db/sstable.cc:112-130 | moves one entry on, across blocks; the end error at the last entry, and the buffer error on every call before the first placement or after the end |
| `SSTableIteration.Iterator.Key` | db/sstable.cc:132-135 | the key of the entry it stands on |
| `SSTableIteration.Iterator.Value` | db/sstable.cc:137-141 | the value of the entry it stands on |
| `SSTableIteration.Iterator.Read` | db/sstable.cc:143-152 | the buffer holds the encodings of the block's entries |
| `SSTableIteration.Lookup` | db/sstable.cc:67-78 | the value of the first entry with the key, or the not-found error, as linear search says |
| `SSTablePipeline.Build` | db/sstable.cc:154-231 | the file bytes are a function of entries and block size alone |
| `SSTablePipeline.Load` | db/sstable.cc:15-65 | loading a built file succeeds exactly when every block can be read back |
| `SSTablePipeline.BuildAndLookup` | db/sstable.cc:18-221 | build, load and lookup agree with linear search of the added list, for every sorted list, block size and flush size |
| `SSTablePipeline.BuildAndScan` | db/sstable.cc:18-221 | build, load and iterate give back every list, sorted or not, in order and then the end error |
| `SSTablePipeline.SmallEntriesReadable` | db/sstable.cc:53-55 | with a block size and entries up to the limit every block can be read back |
| `TimerMachine.StepKeepsInv` | net/timer-list.h:56-117 | every step keeps the list sorted, all waits no later than the front, and a wait alive for a non-empty list |
| `TimerMachine.RunKeepsInv` | net/timer-list.h:56-117 | so does every run |
| `TimerMachine.FiresExactly` | net/timer-list.h:109-112 | whenever an entry fires, its expiry is the one the handler captured and the one its timer is due at |
| `TimerMachine.NeverStuck` | net/timer-list.h:56-117 | in every run the list is sorted, no armed or queued wait is later than the front, and outside the handler a non-empty list has one |
| `TimerMachine.HandlesAllDue` | net/timer-list.h:104-116 | whatever its callbacks do, a handler leaves no entry at or before its captured expiry, and the system timer set for the first entry left |
| `TimerMachine.HandledIsRun` | net/timer-list.h:104-116 | whatever its callbacks schedule, update and cancel, a handler takes steps of the machine and ends |
| `TimerTrace.ListIsPending` | net/timer-list.h:56-157 | in every run the entries that wait are exactly the timers scheduled and since then neither cancelled nor fired, each with the time of its last schedule or effective update plus the duration |
| `TimerTrace.FiresPending` | net/timer-list.h:109-112 | a timer fires only while it is pending, by a handler that captured its last schedule or update plus the duration, and not before that time |
| `TimerTrace.FiresWhenDueAndOnce` | net/timer-list.h:100-117 | in every run the callbacks are exactly the firings of the trace, none before the last schedule or update of its timer plus the duration, and none twice |
| `TimerTrace.NotAfterCancel` | net/timer-list.h:74-149 | no timer fires after it was cancelled, and none after it has fired |
| `TimerTrace.NeverLate` | net/timer-list.h:56-117 | a timer pending past its time has a handler queued or the system timer about to go off |
| `TimerLists.TimerList.Wait` | net/timer-list.h:100-117 | the system timer is set to the front's expiry and earlier queued handlers stay |
| `TimerLists.TimerList.Schedule` | net/timer-list.h:56-66 | is the machine's schedule step: an entry with the time now plus the duration at the end; a wait starts only for the first entry |
| `TimerLists.TimerList.Update` | net/timer-list.h:68-157 | is the machine's update step: new expiry, moved to the end, nothing for a timer that fired |
| `TimerLists.TimerList.Cancel` | net/timer-list.h:74-149 | is the machine's cancel step: the system timer is cancelled only when the list runs empty |
| `TimerLists.TimerList.FireFront` | net/timer-list.h:110-111 | the callback runs with the front still in the list, then the front goes |
| `TimerLists.TimerList.Handle` | net/timer-list.h:104-116 | a handler leaves no entry at or before its captured expiry and waits for the front if there is one, keeping the invariant |
| `RateMachine.StepKeepsInv` | net/rate-limiter.cc:17-64 | every step keeps the invariant: outside the `update` loop the budget lies between 0 and the capacity, waiting requests stand in order of arrival, and the timer is armed exactly while requests wait |
| `RateMachine.StepPotential` | net/rate-limiter.cc:17-64 | no step makes spending plus budget minus time grow |
| `RateMachine.RateBound` | net/rate-limiter.cc:17-64 | in every mixed run, cost granted plus prepaid grows between any two moments by at most the elapsed `time_` plus the capacity |
| `RateBudget.StepExact` | net/rate-limiter.cc:17-64 | every step keeps spending plus budget minus time, except for what does not fit the bucket at a refill; a refused call costs nothing, and a refill is to the moment of the call or of the timer |
| `RateBudget.RunExact` | net/rate-limiter.cc:17-64 | in every mixed run the time that passes is what is spent, what the budget grows by, and what the cap takes; the cost granted is that of the callbacks called and the calls that succeeded |
| `RateBudget.FirstInFirstOut` | net/rate-limiter.cc:17-64 | in every mixed run the requests made are those whose callbacks were called, in order and at the same costs, followed by those that wait; outside `update` the timer is armed exactly while requests wait |
| `RateBudget.GrantsAre` | net/rate-limiter.cc:39-64 | the list of grants is that of the callbacks called |
| `RateBudget.CostBounds` | net/rate-limiter.cc:18-20 | a cost is the size over the rate in nanoseconds, rounded down; it is 0 exactly for sizes below one nanosecond's worth |
| `RateBudget.SizesBound` | net/rate-limiter.cc:17-64 | over every mixed run the sizes granted are at most rate times (elapsed time plus capacity plus change of what is prepaid), and less than one nanosecond's worth more per request; nothing more if the rate divides the sizes |
| `RateMachine.BacklogExact` | net/rate-limiter.cc:39-64 | with only `acquire`, no step loses budget to the cap while requests wait |
| `RateMachine.BacklogRun` | net/rate-limiter.cc:39-64 | while the queue stays non-empty, cost granted plus prepaid grows exactly by the virtual time |
| `RateMachine.RingEarns` | net/rate-limiter.cc:55-63 | when the timer rings, the budget is what the front still needs or a full bucket |
| `RateMachine.FrontCanBeGranted` | net/rate-limiter.cc:39-64 | from every idle state there is a run that grants the front request, however far above the capacity |
| `RateBacklog.AcquireOnly` | net/rate-limiter.cc:17-64 | every run of `acquire` calls leads to states that the next two rows speak of |
| `RateBacklog.GrantedExactly` | net/rate-limiter.cc:39-64 | in every run of `acquire` calls, passing time and rings, the first j requests waiting have been granted if and only if the timer has rung once per full or partial bucket of each of them |
| `RateBacklog.FrontIsGranted` | net/rate-limiter.cc:39-64 | in every such run the front request is granted by the ring for its last bucket and never by an earlier one |
| `RateMachine.DrainedIsRun` | net/rate-limiter.cc:39-64 | whatever the callbacks do, an update takes steps of the machine and ends |
| `RateLimiters.RateLimiter.Acquire` | net/rate-limiter.cc:17-24 | queues the request and updates only if it is alone, as the machine does |
| `RateLimiters.RateLimiter.AcquireNowait` | net/rate-limiter.cc:26-37 | succeeds exactly when the budget brought up to now covers the cost, and then takes it; a refusal takes nothing |
| `RateLimiters.RateLimiter.Update` | net/rate-limiter.cc:39-64 | grants from the front while the budget lasts, prepays the rest and arms the timer, as the machine does |
| `RateLimiters.RateLimiter.Prepay` | net/rate-limiter.cc:43-57 | the front request takes the whole budget and the timer is set for what it still needs, or for a full bucket |
| `RateLimiters.RateLimiter.Ring` | net/rate-limiter.cc:57-63 | the timer's handler updates at the scheduled time, not the actual one |
| `Fibonacci.FibonacciSequence.Next` | util/fibonacci-sequence.h:13 | the pair moves from the n-th to the next Fibonacci numbers |
| `Fibonacci.FibonacciSequence.Reset` | util/fibonacci-sequence.h:10 | the pair is the first two Fibonacci numbers |
| `Fibonacci.FibSumClosed` | util/fibonacci-sequence.h:6-18 | the first n Fibonacci numbers add up to F(n+2) - 1 |
| `Fibonacci.FibAt46` | util/fibonacci-sequence.h:15-17 | F(46) is the last that fits 31 bits |
| `RetrySchedule.WaitsAddUp` | net/rpc/client.cc:197-200 | waits plus remaining timeout always equal the original timeout |
| `RetrySchedule.SendCount` | net/rpc/client.cc:181-212 | the operation times out after n sends if and only if n is the least with initial retry times (F(n+2) - 1) at least the timeout |
| `RetrySchedule.TimesOutEventually` | net/rpc/client.cc:181-212 | there is such an n |
| `RetrySchedule.RoundsAre` | net/rpc/client.cc:181-212 | after m of n sends exactly n - m are left |
| `RetrySchedule.NoOverflowIff` | net/rpc/client.cc:197-199 | the 32-bit sequence stays in range over all sends if and only if the timeout is at most 1836311902 initial retries |
| `RpcWire.Split` | net/rpc/client.cc:142-166 | the fragmenting loop produces exactly the fragments, one for an empty message |
| `RpcWire.PiecesIffOffsetsFit` | net/rpc/client.cc:152 | every fragment carries the piece at its 16-bit offset if and only if the last offset fits 16 bits |
| `RpcWire.FragmentsApart` | net/rpc/client.cc:144-166 | two fragments of a message share no byte, and only one of them is the last |
| `RpcWire.StillMissing` | net/rpc/client.cc:236-241 | a fragment that is missing is supplied by no other |
| `RpcWire.AcceptAgrees` | net/rpc/server.cc:247-251 | accepting a genuine fragment keeps the covered bytes and the known size those of the message |
| `RpcWire.CompleteIsWhole` | net/rpc/server.cc:252-255 | a complete buffer holds exactly the message |
| `RpcWire.SeenAllCompletes` | net/rpc/server.cc:247-255 | a buffer that has accepted every fragment, in any order and number, is complete |
| `RpcCall.SplitEncodeIff` | net/rpc/server.cc:258-284 | splitting the encoded call gives back request and method if and only if the method has no zero byte, empty requests included |
| `RpcCall.CallBytes` | net/rpc/client.cc:81-84 | the bytes of a call by position: request, zero byte, method; for an empty request the method alone |
| `RpcCall.FindMethod` | net/rpc/server.cc:259-263 | the backward loop stops where the method starts |
| `RpcClientState.OutcomeIsFinal` | net/rpc/client.cc:214-257 | once finished, no datagram, timeout, error or late send changes the outcome |
| `RpcClientState.HandlerFrame` | net/rpc/client.cc:181-257 | handlers leave the response alone, send all fragments or nothing, and can only finish with an error |
| `RpcClientState.AllArrivedReplies` | net/rpc/client.cc:214-248 | if all fragments of a response arrive, the callback gets exactly the response |
| `RpcClient.Operation.constructor` | net/rpc/client.cc:123-167 | a new operation holds all fragments of the encoded call |
| `RpcClient.Operation.Abort` | net/rpc/client.cc:250-257 | finishes with the given error unless already finished |
| `RpcClient.Operation.Send` | net/rpc/client.cc:181-212 | finishes with `TimedOut` when no time is left, else sends all fragments and waits the next Fibonacci multiple, cut to what is left |
| `RpcClient.Operation.Run` | net/rpc/client.cc:190-211 | each handler does the value-level step and drops its reference; the last one makes the destructor call back |
| `RpcClient.Operation.CancelTimer` | net/rpc/client.cc:246-256 | a pending wait becomes a queued cancelled handler; one already queued stays |
| `RpcClient.Operation.Unpack` | net/rpc/client.cc:214-248 | is the value-level step: grow, open, cover, learn the size, finish when covered |
| `RpcClient.Operation.Finish` | net/rpc/client.cc:169-179 | the callback gets the error, or the response cut to its size |
| `RpcServerState.InvokesOnce` | net/rpc/server.cc:192-256 | only the datagram that completes a request invokes the handler, and fragments never touch the answer |
| `RpcServerState.AtMostOneInvocation` | net/rpc/server.cc:240-255 | over its whole life an operation invokes the handler at most once |
| `RpcServerState.AnswerIsFinal` | net/rpc/server.cc:240-246 | after the answer no datagram changes it, its fragments, the key or the call |
| `RpcServerState.AnswersAgain` | net/rpc/server.cc:240-246 | after completion a copy of the last fragment is answered with the very fragments of the answer, other copies are silent |
| `RpcServerState.FindsKey` | net/rpc/server.cc:217-232 | the search over the keystore stops at the key the body was sealed with |
| `RpcServerState.AllArrivedInvokes` | net/rpc/server.cc:192-284 | if all fragments of a request arrive, in any order and number, the handler gets exactly the call |
| `RpcServer.Operation.TryKeys` | net/rpc/server.cc:205-235 | the first key that opens the body is kept; failed attempts leave their bytes in the buffer and nothing else |
| `RpcServer.Operation.Unpack` | net/rpc/server.cc:192-256 | is the value-level step |
| `RpcServer.Operation.Handle` | net/rpc/server.cc:258-284 | splits the request in place and hands it over, or does nothing for an unknown method |
| `RpcServer.Operation.Pack` | net/rpc/server.cc:286-316 | appends all fragments of the response and sends them |
| `RpcServer.Server.Dispatch` | net/rpc/server.cc:130-150 | only the operation of the datagram's key changes; a new one stays only if its body was opened |
| `RpcSafety.StepKeepsInv` | net/rpc/server.cc:130-326 | every event of clients, server and network, losses included, keeps the system invariant |
| `RpcSafety.RunKeepsInv` | net/rpc/server.cc:130-326 | so does every run |
| `RpcSafety.ArrivalServes` | net/rpc/server.cc:192-284 | whatever genuine fragment arrives, the server operation goes on serving exactly its client's call |
| `RpcSafety.RepliesAreAnswers` | net/rpc/client.cc:75-248 | end to end: in every run a reply given to a callback is the answer of a handler that got exactly the client's request and method |
| `RpcSafety.CallsAreGenuine` | net/rpc/server.cc:240-284 | in every run a handler gets only the client's call, and at most once until the client has finished |
| `RpcSafety.FinishedIsFinal` | net/rpc/client.cc:214-257 | a finished operation keeps its outcome, whatever still arrives, is sent or is lost |
| `RpcSafety.ServerAlwaysSound` | net/rpc/server.cc:247-263 | in every reachable state a server operation whose request is incomplete knows no size beyond its request buffer |
| `RpcLifetime.StepKeepsLife` | net/rpc/client.cc:169-257 | every event keeps: at most one handler of the timer is pending, an unfinished operation has one, and the callback has been called once if nothing refers to the operation and not at all otherwise |
| `RpcLifetime.CalledOnce` | net/rpc/client.cc:169-257 | in every run an operation that nothing refers to has finished and its callback was called exactly once, with its outcome; while something refers to it the callback was not called |
| `RpcLifetime.CallbacksAreFinal` | net/rpc/client.cc:169-179 | once the callback was called, no run calls it again |
| `RpcLifetime.HandlerWorks` | net/rpc/client.cc:181-212 | every handler that runs lowers the bound on the handlers to come, even when it sends again |
| `RpcLifetime.CallbackWithin` | net/rpc/client.cc:169-257 | from every state no run has more handlers than that bound, and until the callback is called fewer have run and one is pending |
| `RpcLifetime.SomePending` | net/rpc/client.cc:190-211 | as long as something refers to an operation, one of its handlers can run |
| `RpcLifetime.CallbackIsReached` | net/rpc/client.cc:75-257 | a call that times out after n sends has at most n handlers per fragment and 2n for its timer, and when they have run the callback was called exactly once |
| `RpcLifetime.FinishCancels` | net/rpc/client.cc:243-256 | the event that finishes an operation cancels its wait; only a handler already queued can still send |
| `RpcLifetime.EndsPromptly` | net/rpc/client.cc:169-257 | a finished operation without such a handler never sends again, and its callback is called by the last of exactly as many handlers as there are references |
| `RpcOutcomes.OutcomesAreGenuine` | net/rpc/client.cc:169-257 | in every run a failure given to a callback is that of a wait that failed, a timeout comes after exactly the sends of the schedule and one more call, and either comes only when every handler has run: one per fragment and send, and one of the timer per send |
| `RpcOutcomes.ReplyOrTimeout` | net/rpc/client.cc:169-257 | a call none of whose waits fails ends in a reply or in a timeout |
| `RpcOutcomes.UnfinishedSends` | net/rpc/client.cc:181-212 | an operation that has not finished has sent at most as often as the schedule allows |
| `RpcOutcomes.RepliesWereAnswered` | net/rpc/client.cc:75-248 | end to end from event to event: a reply was given in an answer, by a handler that was called with exactly the call of the request |
| `RpcOutcomes.CallsWereAsked` | net/rpc/server.cc:240-284 | whenever a handler is called, it is given the call of a request event |
| `RpcOutcomes.NoncesAreFresh` | net/rpc/client.cc:139-161 | until a call has finished, no nonce seals two different datagrams of it, in either direction |
| `RpcProgress.HandlerCanBeReached` | net/rpc/server.cc:192-284 | if every fragment of the request has arrived or is under way, deliveries alone lead to the handler being called |
| `RpcProgress.AnswerCanBeRepeated` | net/rpc/server.cc:240-246 | if the server holds an answer and a copy of the last request fragment is under way, its delivery puts the whole answer under way again |
| `RpcProgress.AnswerCanReturn` | net/rpc/client.cc:214-248 | if every fragment of the answer has arrived or is under way, deliveries alone finish the call with a reply |
| `RpcProgress.EnoughSucceeds` | net/rpc/client.cc:75-248 | without another send, deliveries and an answer make the call succeed whenever what was not lost is enough |
| `RpcProgress.ResendSucceeds` | net/rpc/client.cc:181-248 | with time left, whatever was lost before, one more send, deliveries of what it sends and an answer make the call succeed |
| `RpcLimits.CanSucceedIff` | net/rpc/client.cc:75-248 | in every reachable state an unfinished call can still succeed if and only if its key and method are known and there is time left for a send or what was not lost is enough |
| `RpcLimits.SucceedsAfterLoss` | net/rpc/client.cc:181-248 | from every reachable state with time left, even after everything under way is lost, one more send succeeds |
| `RpcLimits.RunKeepsStuck` | net/rpc/client.cc:181-257 | a call that has no time left and has lost too much, or is unknown to the server, never gets a reply, whatever happens |
| `IcmpChecksum.OnesSumWraps` | net/icmp-client.cc:23-37 | the one's complement sum of words is their plain sum wrapped modulo 0xffff |
| `IcmpChecksum.TwoFoldsSuffice` | net/icmp-client.cc:34-35 | two folds bring every 32-bit sum to its one's complement value |
| `IcmpChecksum.ChecksumOfBytes` | net/icmp-client.cc:23-37 | the checksum is the only 16-bit number for which 256 times the bytes at even places plus those at odd places is a multiple of 0xffff and which is 0xffff exactly if all other bytes are 0 |
| `IcmpChecksum.AddWords` | net/icmp-client.cc:24-33 | the accumulator is the plain sum of header and zero-padded payload and does not overflow |
| `IcmpChecksum.ComputeChecksum` | net/icmp-client.cc:23-37 | for every payload of an IPv4 packet the one's complement sum of the header with its checksum and the payload is 0xffff, and the weighed bytes of the message are a multiple of 0xffff |
| `Utf.RoundTrip` | util/utf.cc:21-94 | decoding the encoding of any sequence of 16-bit units gives it back |
| `UtfLaws.EncodeKeepsOrder` | util/utf.cc:21-36 | encoded texts compare byte by byte as the units do |
| `UtfLaws.UnitBits` | util/utf.cc:21-36 | the length, the marks and every bit of an encoded unit |
| `UtfLaws.OneByte` | util/utf.cc:68-70 | every bit of the unit that a single byte stands for |
| `UtfLaws.TwoBytes` | util/utf.cc:71-77 | every bit of the unit that two bytes stand for |
| `UtfLaws.ThreeBytes` | util/utf.cc:78-85 | every bit of the unit that three bytes stand for |
| `UtfLaws.FourBytes` | util/utf.cc:86-91 | four bytes stand for the replacement character |
| `UtfLaws.DecodeBehind` | util/utf.cc:65-94 | decoding goes on behind encoded text as if that were not there |
| `UtfLaws.DecodeDropsCut` | util/utf.cc:65-94 | a unit cut off at the end is dropped and nothing else |
| `Utf.Utf16ToUtf8Size` | util/utf.cc:5-19 | the predicted size is the number of bytes the encoder writes |
| `Utf.Utf16ToUtf8` | util/utf.cc:21-36 | writes exactly the encoding and nothing behind it |
| `Utf.Utf8Length` | util/utf.cc:38-63 | for every byte string, valid or truncated, the number of units the decoder writes |
| `Utf.Utf8ToUtf16` | util/utf.cc:65-94 | writes exactly the decoding and nothing behind it |

## Left out

- Heap order of the rope after an arbitrary insert: an insert that spills twice can break it. The exact condition is
  given for one rotation, for `merge` and for a three-buffer insert into an empty rope; for inserts that fit it always
  holds. A condition on the arguments of every double-spilling insert into every tree is not given.
- RopeTree.EraseHeapOrderIff: speaks of a range within one node; an erasure over several nodes is a chain of such
  steps whose merges feed each other, and no condition on its arguments is given.
- RopeTree.FittingInsertKeepsHeapOrder: states one direction, because an insert that does not fit can still keep the
  order by luck of the priorities.
- The vector-instruction variants of `find_two`; the scalar branch is modelled.
- SSTableReading.SSTable.Init: says nothing of a footer or a key size with a negative number, for which the code
  asks for a vector or forms a span of a huge size.
- Failing writes: the in-memory file never fails.
- Sockets, executors, endpoints and the choice of channel in the RPC code; datagrams are delivered by direction and
  operation key. Forged or altered datagrams.
- Fairness of the network: a network may lose everything. What is proved is exactly when success is possible, and
  that the callback is reached in any case.
- Destruction of the client while operations are pending (`detached_`).
- Coroutine support of the timer list (`run`), error codes passed to its handler, and destruction of the list.
- The HTTP client and server, the ICMP client beyond its checksum, key derivation and the keystore's representation,
  line reader, streams, varint, string and hex helpers, address parsing, logging, flags, platform files and generated
  code: they would add easy members or rest on libraries that are not part of this model.
