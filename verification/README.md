# Verified models of apr-util and sigslot

This project models the algorithmic core of the libraries that the player is built on, and proves what they
are for:

- **Relocatable memory allocator** (modules `Rmm*`). Two linked lists of blocks live inside the region that they
  manage. The region is an array of 8-byte words; the abstract state is the sequence of blocks that tile it. All
  offset surgery is proved to represent `Take` and `Release` on that sequence, and never to touch a payload.
- **Bucket brigades** (`Buckets`, `Bucket*`, `Brigade*`). Rings of slices of shared, counted storage that is
  fetched lazily. The abstract value of a ring is its bytes. A system read may stop short, fail or meet the end
  at any point, an allocation's contents are arbitrary, and a flush callback takes any number of buckets from
  the front; the methods leave these choices open, so the proofs cover all of them. The ghost parameter
  `outside` counts the pointers of all live buckets that are not in the ring at hand.
- **Signals and slots** (`SignalList`, `SignalRuns`, `Sigslot`, `SignalNetwork`), with the single-threaded policy.
  `SignalRuns` has all signals and objects as one value; the methods on objects are proved to be its steps.
- **Hook ordering** (`HookGraph`, `HookSort`).
- **XML** (`XmlQuote`, `XmlText`, `XmlReader`, `XmlDocument`, `XmlReserved`, `XmlParse`, `XmlParser`, `XmlRoundTrip`).
  `XmlDocument` gives the meaning of a document with expanded names, by the standard and by the parser's reading of
  names; the parser is proved to build the latter, and `XmlReserved` says when the two agree. The serializer's sizing
  pass is compared with its writing pass, and `XmlReader`, a reader of tags and contents that knows nothing of the
  writer, gets back from the text what the tree held; so a document that is parsed, quoted, written and read still
  means the same (`XmlRoundTrip`).
- **Blocking queue** (`QueueBuffer`, `QueueProtocol`) **and resource pool** (`ReslistSteps`, `Reslist`). A step is
  what one thread does between taking the mutex and releasing it or waiting.
- **URIs, Horspool search, streaming digests, Base64** (`Uri`, `Strmatch`, `DigestSpec`, `Sha1`, `Md5`, `Base64`).
- `Basics` has what several of them need of numbers, their digits, and sets.

Code that works in place is modelled by arrays, or by classes whose fields the methods reassign, and each method is
tied to a function or a predicate about which the theorems are stated.

Where the code does not do what its interface suggests, the code is modelled, the exact condition is proved, and a
concrete input shows the failure:

| what fails | condition | input |
|---|---|---|
| one disconnect forgets a pair that is connected twice | `SignalNetwork.Disconnect` | `SignalRuns.SecondConnectionStays` |
| free accepts most blocks that are free already, and does nothing | `Rmm.SaneIffUsedOrLaterFree`, `RmmAllocator.Allocator.Free` | `Rmm.FreeBlockPasses` |
| one style of the serializer sizes too much | `XmlText.SizeIsExact` | `XmlText.DeclarationCountedTwice` |
| a prefix that begins with xml loses its declared namespace | `XmlReserved.NameIffNotSetAside`, `XmlParse.DocumentMeans` | `XmlParse.ReservedPrefixIsLost` |
| some ports and brackets are lost in unparsing | `Uri.RoundTrip` | `Uri.DefaultPortIsLost`, `Uri.BracketsAreLost` |
| a write behind shared storage overwrites other buckets | `BucketLife.AppendExact`, `BucketLife.AppendDisturbs` | `BucketLife.AppendOverwrites` |

## Model

| member | source | states |
|---|---|---|
| RmmAllocator.Allocator.constructor | 3rd/apr-util/misc/apr_rmm.c:213-246 | apr_rmm_init leaves one free block that covers the region behind its header |
| RmmAllocator.Allocator.Malloc | 3rd/apr-util/misc/apr_rmm.c:307-324 | in bytes: the first of the smallest free blocks is taken that hold a header and the least words with room for the request, or nothing fits and nothing changes; the payload lies in the region and holds all bytes asked for; a block is cut to those words exactly when the rest could store a word of its own; the payload of every other live block keeps its words |
| RmmAllocator.Allocator.Calloc | 3rd/apr-util/misc/apr_rmm.c:326-344 | as for malloc, and every word that holds a requested byte is zero |
| RmmAllocator.Allocator.Realloc | 3rd/apr-util/misc/apr_rmm.c:346-373 | the new block is found as by malloc and holds every word with one of the first min(old payload, new size) bytes of the old one, although the copy length counts a header too many; the old block is released, all other live payloads are kept, and a refused request changes nothing |
| RmmAllocator.Allocator.Free | 3rd/apr-util/misc/apr_rmm.c:375-421 | a live block is released with its merges on both sides, and no other payload changes; the first free block and an offset that is too small are refused; another free block is accepted, and then not a word of the region changes |
| Rmm.SaneIffUsedOrLaterFree | 3rd/apr-util/misc/apr_rmm.c:380-414 | what the sanity checks of free really test: every live block passes, and of the free blocks all but the first pass too |
| Rmm.FreeBlockPasses | 3rd/apr-util/misc/apr_rmm.c:380-414 | a concrete region of 24 words, reached by two allocations and a free, in which a free block passes the checks |
| Rmm.FindBlockByOffset | 3rd/apr-util/misc/apr_rmm.c:76-95 | on a sorted list the walk ends at the block itself, or with `includes` at the last block before its place, and otherwise at 0 |
| Rmm.FindBlockOfSize | 3rd/apr-util/misc/apr_rmm.c:97-141 | returns 0 exactly when no free block fits and then writes nothing; otherwise the best fit, split in place so that both linked lists again represent a tiling |
| Rmm.MoveBlock | 3rd/apr-util/misc/apr_rmm.c:143-211 | the offset surgery of unlinking, relinking and two-sided merging turns a region that represents a tiling into one that represents the tiling with that block released (or in use), and keeps the payload of every block; a later free block that is freed again goes back to its place, and no word changes |
| RmmMoves.BecomesFree | 3rd/apr-util/misc/apr_rmm.c:164-210 | entering the free list with all four combinations of merges represents exactly the release of the block |
| RmmMoves.BecomesUsed | 3rd/apr-util/misc/apr_rmm.c:164-210 | entering the used list represents the same tiling with the block in use |
| RmmSplit.SplitRep | 3rd/apr-util/misc/apr_rmm.c:125-139 | cutting a free block rewrites links so that the lists represent the cut tiling, and writes nothing but headers of free blocks |
| RmmMoves.KeepsPayload | 3rd/apr-util/misc/apr_rmm.c:143-211 | header writes never hit a payload |
| RmmBlocks.TakeKeepsInv | 3rd/apr-util/misc/apr_rmm.c:97-141 | serving a request keeps the tiling exact and never leaves two adjacent free blocks |
| RmmBlocks.ReleaseKeepsInv | 3rd/apr-util/misc/apr_rmm.c:143-211 | freeing a live block keeps the tiling exact and never leaves two adjacent free blocks |
| RmmBlocks.ReleaseUndoesTake | 3rd/apr-util/misc/apr_rmm.c:307-324 | freeing what was just allocated restores the state, remainder and all |
| RmmBlocks.RunKeepsInv | 3rd/apr-util/misc/apr_rmm.c:97-211 | every state that any sequence of granted requests leads to keeps the invariant, and is the initial one whenever nothing is live |
| RmmBlocks.FreeAllInAnyOrder | 3rd/apr-util/misc/apr_rmm.c:375-421 | all live blocks can be freed in every order, and always end in one free block |
| BucketSteps.SplitKeeps | 3rd/apr-util/buckets/apr_buckets_refcount.c:19-31 | a split of any bucket at any point keeps the bytes of this and all other rings and adds exactly one reference to the shared structure |
| BucketSteps.HandOverKeeps | 3rd/apr-util/buckets/apr_buckets_file.c:44-154 | when a file bucket morphs, by mapping or reading, the file reference goes to the rest of the file or is dropped; no byte and no count is lost |
| BucketSteps.PipeTakeKeeps | 3rd/apr-util/buckets/apr_buckets_pipe.c:19-76 | a pipe bucket that becomes a heap bucket with the pipe behind it, or an empty one at the end of the stream, keeps the bytes |
| BucketSteps.PoolReadKeeps | 3rd/apr-util/buckets/apr_buckets_pool.c:45-62 | a bucket whose pool is gone turns into a heap bucket with the same bytes |
| BucketReads.ReadKeeps | 3rd/apr-util/buckets/apr_buckets_file.c:75-154 | whatever a read of any bucket type does, including short reads, errors, the end and mappings, no byte of any ring changes and every count stays exact |
| BucketReads.ReadHasShape | 3rd/apr-util/buckets/apr_buckets_file.c:75-154 | after a read that did not fail the bucket is in memory with exactly the bytes handed out, at most one bucket was added behind it, and less is left to fetch |
| BucketReads.ReadStatus | 3rd/apr-util/buckets/apr_buckets_file.c:75-154 | a read that fails was of a file or a pipe, one that meets the end was of a file, and there is no other status but success |
| BucketLife.InsertKeeps | 3rd/apr-util/buckets/apr_buckets_heap.c:43-74 | a created bucket brings in its bytes at its place, starts with one reference, and disturbs nothing |
| BucketLife.CopyKeeps | 3rd/apr-util/buckets/apr_buckets_refcount.c:33-42 | a copy adds the same bytes once more and one reference |
| BucketLife.DeleteKeeps | 3rd/apr-util/buckets/apr_buckets_heap.c:31-39 | deleting a bucket leaves all others their bytes, and releases what it pointed at exactly when nothing else points at it |
| BucketLife.CleanupKeeps | 3rd/apr-util/buckets/apr_buckets_pool.c:21-43 | when a pool goes away no byte that any bucket reads changes |
| BucketLife.AppendKeeps | 3rd/apr-util/buckets/apr_brigade.c:385-425 | writing behind the last heap bucket in place, when no other bucket of the ring holds any of the bytes that are written, adds the text to this ring and changes no bucket elsewhere that holds none of them |
| BucketLife.UnsharedIsClear | 3rd/apr-util/buckets/apr_brigade.c:385-391 | storage that only the last bucket points at is the special case in which nothing at all is disturbed |
| BucketLife.AppendDisturbs | 3rd/apr-util/buckets/apr_brigade.c:385-391 | what sharing does: another bucket on that storage, of whatever type, keeps its bytes for all texts of the length exactly when it is empty, ends before the bytes written or starts behind them |
| BucketLife.AppendExact | 3rd/apr-util/buckets/apr_brigade.c:385-425 | for every length: any text of it that is appended adds just itself to the bytes of the ring exactly when no other bucket of the ring holds any of the bytes that are written |
| BucketLife.AppendOverwrites | 3rd/apr-util/buckets/apr_brigade.c:385-391 | a concrete run of create, split, move and append after which the second half of the split bucket reads another byte |
| BucketLife.RunCounts | 3rd/apr-util/buckets/apr_buckets_refcount.c:19-64 | in every run of create, split, copy, read, move, pool cleanup, append and delete, each reference count is the number of live buckets that point at the structure, and is not zero |
| BucketLife.RunReleasesOnce | 3rd/apr-util/buckets/apr_buckets_refcount.c:44-49 | in every run a structure is released at most once |
| BucketLife.RunReleasesAtLast | 3rd/apr-util/buckets/apr_buckets_refcount.c:44-49 | in every run a counted structure leaves the memory in exactly the step that drops the last pointer to it, and for good |
| Brigades.Brigade.Split | 3rd/apr-util/buckets/apr_buckets_simple.c:28-46 | the status for every type and point, and the whole new state: two buckets with the lengths point and the rest, or nothing changed |
| Brigades.Brigade.Read | 3rd/apr-util/buckets/apr_buckets_file.c:75-154 | the read of the bucket’s type happens, the bytes are handed out, and the brigade and all other rings keep theirs |
| Brigades.Brigade.MakeMmap | 3rd/apr-util/buckets/apr_buckets_file.c:44-72 | a mapping is made only where it is allowed and long enough; it covers at most the limit, and the split and the destroy leave the file’s count to the rest |
| Brigades.Brigade.ReadFile | 3rd/apr-util/buckets/apr_buckets_file.c:75-154 | the bucket becomes a mapping or a heap bucket of what the system gave, the rest stays a file bucket unless the file ended |
| Brigades.Brigade.ReadPipe | 3rd/apr-util/buckets/apr_buckets_pipe.c:19-76 | the bucket becomes a heap bucket in a whole buffer with the pipe behind it, or an empty one at the end |
| Brigades.Brigade.ReadPool | 3rd/apr-util/buckets/apr_buckets_pool.c:45-62 | the bytes come from the pool or, once it is gone, from the heap, and the type follows |
| Brigades.Brigade.Delete | 3rd/apr-util/buckets/apr_buckets_heap.c:31-39 | the bucket is unlinked and its reference dropped; the others keep their bytes |
| Brigades.Brigade.Cleanup | 3rd/apr-util/buckets/apr_brigade.c:37-48 | the brigade is empty, and of the counted structures only those are left that other rings point at |
| Brigades.Brigade.Partition | 3rd/apr-util/buckets/apr_brigade.c:93-161 | no byte changes or moves; the lengths before the returned bucket add up to exactly the point, so its bytes are the first point bytes of the content; or all lengths together are smaller, and so is the content; or a pipe could not be read; a negative point is refused |
| Brigades.Brigade.SplitLine | 3rd/apr-util/buckets/apr_brigade.c:277-316 | the moved bytes followed by the remaining ones are the old content; a line feed among the moved ones is the last and only one; without one, all is moved or the length is reached; the buckets before the last moved one were shorter than the limit; it fails only on a file or pipe bucket in front, ends early only on a file shorter than its bucket claims, and a brigade without files and pipes always succeeds |
| BrigadeFacts.TotalIsSize | 3rd/apr-util/buckets/apr_brigade.c:163-194 | the sum of the length fields is the number of bytes when no file is shorter than claimed, and never less |
| BrigadeFacts.CutAt | 3rd/apr-util/buckets/apr_brigade.c:93-161 | where the lengths add up to a point, the bytes are cut at that point |
| BrigadeFacts.ReadDrops | 3rd/apr-util/buckets/apr_brigade.c:113-158 | every read leaves less to fetch behind the bucket, so the loops over growing rings end |
| BrigadeFacts.MoveOver | 3rd/apr-util/buckets/apr_brigade.c:306-307 | taking the first bucket to the end of another brigade moves exactly its bytes, and all counts stay exact |
| BrigadeWrites.Length | 3rd/apr-util/buckets/apr_brigade.c:163-194 | the sum of the lengths, or -1 exactly when an unknown length is not to be read; it fails only where a length is still unknown |
| BrigadeWrites.Flatten | 3rd/apr-util/buckets/apr_brigade.c:196-239 | the buffer holds the first min(len, size) bytes of the content, and the brigade keeps its bytes while buckets morph; a status other than success is that of a read at a file or pipe bucket that was still needed, so without those it succeeds |
| BrigadeWrites.Write | 3rd/apr-util/buckets/apr_brigade.c:376-428 | what the flush has taken followed by what is in the brigade grows by exactly the text, for every fill level; the flush is called once, with all bytes, exactly when there is one and the text does not fit, and its status is returned; a text that fits behind a last heap bucket makes it longer, and one that is not flushed otherwise is a heap bucket of its own; where it is written in place, no other bucket of the brigade may hold any of those bytes, and every bucket elsewhere that holds none keeps its own |
| BrigadeBulk.Writev | 3rd/apr-util/buckets/apr_brigade.c:430-548 | what the flush has taken followed by what is in the brigade grows by the first k texts, all of them unless the flush fails, and then exactly the longest row of texts that fit behind the last bucket; the flush is called at most once, and it is said when and with which bytes; no other bucket of the brigade may hold any of the bytes that are written in place, and every bucket elsewhere that holds none keeps its own |
| BrigadeBulk.GatherFitting | 3rd/apr-util/buckets/apr_brigade.c:503-511 | whole texts are taken as long as they fit, and the first that does not fit ends it |
| BrigadeBulk.InsertFile | 3rd/apr-util/buckets/apr_brigade.c:673-702 | the brigade grows by exactly the bytes of the range; the pieces stand one behind the other on one shared structure, none larger than the limit and as few as possible, or one when the length fits |
| SignalList.ApplyKeeps | src/common/sigslot.h:372-462 | every operation of a slot on its own signal keeps the cursor on a live connection or at the end, and never steps over a live one |
| SignalList.CallsInOrder | src/common/sigslot.h:554-562 | during one emission the calls go in list order, each at most once |
| SignalList.GoneNeverCalled | src/common/sigslot.h:554-562 | a connection that is gone is never called |
| SignalList.CalledIffNotRemoved | src/common/sigslot.h:554-562 | a connection ahead of the cursor is called exactly when it lives until its turn, whatever the slots connect and disconnect |
| SignalList.EmitCallsEach | src/common/sigslot.h:554-562 | an emission that ends has called every connection present at the start once and in order, unless it was removed before its turn |
| SignalList.ApplySlots | src/common/sigslot.h:372-552 | after every operation each object is called through the slots that it shall be called through, in their order: a connection appends its own, a disconnection drops the first or all, a duplication repeats those of the copied object |
| SignalList.EmitCallsAsMade | src/common/sigslot.h:554-562 | a connection that an emission calls is called with the object and the slot that it was made with, whatever happens to the list in between |
| Sigslot.Signal.Connect | src/common/sigslot.h:547-552 | a connection with just this object and slot is added at the end, and the object learns of the signal |
| Sigslot.Signal.Erase | src/common/sigslot.h:405-416 | list erase: the node goes, and a cursor on it moves to the next |
| Sigslot.Signal.Disconnect | src/common/sigslot.h:400-419 | the first connection to the object goes, and the object forgets the signal altogether |
| Sigslot.Signal.SlotDisconnect | src/common/sigslot.h:422-445 | all connections to the object go, and the cursor stays valid |
| Sigslot.Signal.SlotDuplicate | src/common/sigslot.h:447-462 | each connection to the old object is repeated at the end for the new one |
| Sigslot.Signal.DisconnectAll | src/common/sigslot.h:372-384 | no connection is left, the cursor is at the end, and every object connected before has forgotten the signal |
| Sigslot.Signal.Emit | src/common/sigslot.h:554-562 | the loop with the shared cursor calls exactly what the run of turns calls, node by node and as object and slot, while slots change the list |
| SignalRuns.StepKeepsInStep | src/common/sigslot.h:356-530 | every operation keeps the two sides in step, a disconnection exactly when there was at most one connection of the pair to drop |
| SignalRuns.StepKeepsSingle | src/common/sigslot.h:356-530 | only connecting a connected pair again makes a second connection of a pair; copies of signals and objects do not |
| SignalRuns.RunStaysInStep | src/common/sigslot.h:356-562 | over every sequence of connections, disconnections, copies and destructions in which no connected pair is connected again, also during emissions, a signal is in an object’s sender set exactly when it holds a connection to it, and then just one |
| SignalRuns.StepSlots | src/common/sigslot.h:356-552 | every operation, also copying and destroying of signals and objects, leaves each pair of a signal and an object exactly the slots that it says |
| SignalRuns.RunKeepsSlots | src/common/sigslot.h:356-562 | in every run the slots through which a signal calls an object are told by the events alone: each connection keeps the slot that it was made with, in copies too |
| SignalRuns.SecondConnectionStays | src/common/sigslot.h:405-416 | a concrete run with two connections of a pair that one disconnection puts out of step |
| SignalNetwork.Connect | src/common/sigslot.h:547-552 | a connection of just this object and slot at the end of the list is the step of the network of all signals and objects, which stays in step: a signal is among an object’s senders exactly when it holds a connection to it |
| SignalNetwork.Disconnect | src/common/sigslot.h:400-419 | a disconnection is its step, and keeps the two sides in step exactly when there was at most one connection of the pair |
| SignalNetwork.DisconnectSignal | src/common/sigslot.h:372-384 | the signal drops all its connections, every object connected to it forgets it, and all others stay in step |
| SignalNetwork.DestroySignal | src/common/sigslot.h:350-384 | destroying a signal leaves a network of the others that is in step |
| SignalNetwork.DisconnectObject | src/common/sigslot.h:511-526 | every sender drops all connections to the object, and all others stay in step |
| SignalNetwork.DestroyObject | src/common/sigslot.h:496-526 | destroying an object leaves a network of the others that is in step |
| SignalNetwork.CopyObject | src/common/sigslot.h:485-494 | each signal of the object repeats its connections for the copy and no other list changes; the copy knows the same signals, the two sides stay in step, and pairs with one connection stay so |
| SignalNetwork.CopySignal | src/common/sigslot.h:356-365 | the copy has the same objects and slots in the same order, its objects know it, and the two sides stay in step |
| HookGraph.StepKeepsPostOrder | 3rd/apr-util/hooks/apr_hooks.c:145-182 | the item that one restart and descent finds is the next one of the depth-first post-order |
| HookGraph.PostOrderIsValid | 3rd/apr-util/hooks/apr_hooks.c:139-185 | the depth-first post-order over predecessor slots is a permutation in which every predecessor comes first |
| HookGraph.InOrderStays | 3rd/apr-util/hooks/apr_hooks.c:130-138 | items that already meet all constraints keep their order |
| HookGraph.AcyclicIffOrderable | 3rd/apr-util/hooks/apr_hooks.c:148-150 | a graph is acyclic exactly when some order meets all constraints |
| HookGraph.StuckIffCyclic | 3rd/apr-util/hooks/apr_hooks.c:145-168 | the loop comes to a descent over first open slots that never ends exactly when the graph has a cycle |
| HookGraph.RankIrrelevant | 3rd/apr-util/hooks/apr_hooks.c:139-185 | the result does not depend on which ranking witnesses that the graph is acyclic |
| HookSort.Walk | 3rd/apr-util/hooks/apr_hooks.c:148-168 | from the first unlinked item, down the first open slots, to the item that the recursive descent finds |
| HookSort.FirstSlot | 3rd/apr-util/hooks/apr_hooks.c:153-157 | the first slot that is not NULL is the first predecessor not yet emitted |
| HookSort.Unslot | 3rd/apr-util/hooks/apr_hooks.c:175-181 | the item leaves the slots and the counts of every item that it precedes |
| HookSort.LinkTail | 3rd/apr-util/hooks/apr_hooks.c:169-174 | the item goes behind the tail and is marked as linked |
| HookSort.Tsort | 3rd/apr-util/hooks/apr_hooks.c:139-185 | on every acyclic graph the loop ends and links the items in exactly the depth-first post-order |
| HookSort.AddPredecessor | 3rd/apr-util/hooks/apr_hooks.c:104-109 | a predecessor is stored once |
| HookSort.Prepare | 3rd/apr-util/hooks/apr_hooks.c:83-128 | the slots hold exactly the constraints that the names of predecessors and successors express, by the first hook of a name |
| HookSort.OrderableIffSortable | 3rd/apr-util/hooks/apr_hooks.c:187-212 | the sort applies to a set of hooks exactly when some order meets all its constraints |
| HookSort.SortHook | 3rd/apr-util/hooks/apr_hooks.c:187-212 | the result is a permutation of the hooks that meets every constraint, and the list itself when that already does |
| QueueBuffer.Queue.BeginPush | 3rd/apr-util/misc/apr_queue.c:148-202 | the circular buffer refines a sequence: store at the end and signal if consumers wait, or wait if it is full, or report the end, which is also reported at once when the flag is seen on entry |
| QueueBuffer.Queue.ResumePush | 3rd/apr-util/misc/apr_queue.c:164-202 | after the wait: store, or report the end or an interruption, by the flag as it is read afterwards, when it is still full; an interruption is reported only of a queue that is not terminated |
| QueueBuffer.Queue.NoWaitPush | 3rd/apr-util/misc/apr_queue.c:209-242 | store, or try again later when it is full, or report the end when the flag is seen on entry |
| QueueBuffer.Queue.BeginPop | 3rd/apr-util/misc/apr_queue.c:257-312 | take the front and signal if producers wait, or wait if it is empty, or report the end, which is also reported at once when the flag is seen on entry |
| QueueBuffer.Queue.ResumePop | 3rd/apr-util/misc/apr_queue.c:274-312 | after the wait: take the front, or report the end or an interruption, by the flag as it is read afterwards, when it is still empty; an interruption is reported only of a queue that is not terminated |
| QueueBuffer.Queue.NoWaitPop | 3rd/apr-util/misc/apr_queue.c:319-352 | take the front, or try again later when it is empty, or report the end when the flag is seen on entry |
| QueueProtocol.StepKeepsInv | 3rd/apr-util/misc/apr_queue.c:148-388 | every step of every thread, with spurious wakeups, keeps: waiter counts are exact, no wakeup is lost, elements are in order, and nobody is parked after termination |
| QueueProtocol.RunInv | 3rd/apr-util/misc/apr_queue.c:148-388 | the invariant holds in every state of every run |
| QueueProtocol.QueueIsFifoWithoutLostWakeups | 3rd/apr-util/misc/apr_queue.c:148-388 | in every run elements come out in the order they went in, and whoever is parked while there is work or room for it, some signalled thread of that side is still to run |
| QueueProtocol.NobodyParksAfterTerm | 3rd/apr-util/misc/apr_queue.c:371-388 | once term has returned nobody is parked, and nobody ever parks again |
| Reslist.ResList.Acquire | 3rd/apr-util/misc/apr_reslist.c:290-343 | an idle resource goes out first, a new one is made only below the hard limit, with one call of the constructor, whose failure is the only error; otherwise the caller waits, and a wait that times out takes nothing; each case is a step of the pool |
| Reslist.ResList.Release | 3rd/apr-util/misc/apr_reslist.c:350-355 | the section under the lock: the resource goes to the front of the available list with the time of its release, a step of the pool, and a waiter is signalled once |
| Reslist.ResList.Invalidate | 3rd/apr-util/misc/apr_reslist.c:366-375 | the resource leaves the population and the total, and the list is untouched, a step of the pool; the destructor is called once and its status is returned, and nobody is signalled |
| Reslist.ResList.Maint | 3rd/apr-util/misc/apr_reslist.c:169-230 | new resources go to the front in the order they are made, each with a signal, up to the minimum as far as the hard limit allows, or a tail of the list expires, each entry past its time and never below smax, a step of the pool either way; an error means exactly that the last constructor or destructor call of the pass failed, and every such call is counted; without one, the minimum or the hard limit is reached, or, if none is made, idle is at most smax or all that is idle is younger |
| Reslist.ResList.Cleanup | 3rd/apr-util/misc/apr_reslist.c:138-163 | idle resources are destroyed from the front, all of them unless a destructor fails, which is exactly when an error is returned, and the total is then 0 exactly when nothing is checked out |
| ReslistSteps.StepKeepsInv | 3rd/apr-util/misc/apr_reslist.c:138-375 | every section keeps the counters exact, the hard limit and the order of release |
| ReslistSteps.StepConserves | 3rd/apr-util/misc/apr_reslist.c:138-375 | what a section makes and destroys is the whole change of the resources that exist |
| ReslistSteps.RunConserves | 3rd/apr-util/misc/apr_reslist.c:138-375 | in every interleaving of the sections: the total is idle plus checked out and within the limit, the list is in order of release, and every resource ever made is idle, checked out or destroyed, just once |
| XmlQuote.QuotingIsInjective | 3rd/apr-util/xml/apr_xml.c:536-595 | different strings have different quotations |
| XmlQuote.UnquotesQuoted | 3rd/apr-util/xml/apr_xml.c:536-595 | the references of a quotation stand for just the characters that were quoted: unquoting gives the string back |
| XmlQuote.QuotedUnchanged | 3rd/apr-util/xml/apr_xml.c:555-557 | a string is its own quotation exactly when it has no special character |
| XmlQuote.QuotedHasNoMarkup | 3rd/apr-util/xml/apr_xml.c:536-595 | quoted text has no angle bracket and, inside quotes, no quote |
| XmlQuote.QuoteString | 3rd/apr-util/xml/apr_xml.c:536-595 | the measuring pass is exact, and the second pass fills the buffer with the quotation |
| XmlQuote.InsertUri | 3rd/apr-util/xml/apr_xml.c:878-896 | the number returned names the URI, the table grows by at most that entry, and stays free of duplicates |
| XmlText.NsLenCountsDigits | 3rd/apr-util/xml/apr_xml.c:597-601 | the macro counts the decimal digits of every 32-bit number |
| XmlText.ElemSize | 3rd/apr-util/xml/apr_xml.c:612-709 | the sizing pass is the length of the text plus a slack that is given for every element and style |
| XmlText.SizeIsExact | 3rd/apr-util/xml/apr_xml.c:617-688 | the slack is 0 in the FULL, INNER and LANG_INNER styles, and in FULL_NS_LANG exactly when there is no namespace and no language, or the element is empty and has no language of its own |
| XmlText.DeclarationCountedTwice | 3rd/apr-util/xml/apr_xml.c:617-664 | a concrete element for which the sizing pass counts 17 characters too many |
| XmlText.WriteElem | 3rd/apr-util/xml/apr_xml.c:721-810 | the writer puts exactly the text at the buffer position and returns its end |
| XmlText.ToText | 3rd/apr-util/xml/apr_xml.c:846-861 | the buffer begins with the text and ends with a NUL, and is just these two in the three exact styles |
| XmlText.QuoteElem | 3rd/apr-util/xml/apr_xml.c:812-843 | all texts and attribute values below an element are quoted, names and languages are not |
| XmlReader.ReadsPairs | 3rd/apr-util/xml/apr_xml.c:741-749 | names and values are read back in order from what a start tag has of them |
| XmlReader.ReadsFull | 3rd/apr-util/xml/apr_xml.c:721-810 | in style FULL every element whose names hold no delimiter and whose values and texts are quoted is read back, whatever follows it: name, namespace numbers, attributes in order, language of its own, texts and children |
| XmlReader.TextIsReadBack | 3rd/apr-util/xml/apr_xml.c:721-810 | the same in all four styles: with every namespace declared, with the language in front, and contents only |
| XmlReader.LanguagesAreKept | 3rd/apr-util/xml/apr_xml.c:751-758 | the languages that are written, and handed down where none is, are those of all elements |
| XmlReader.QuotedIsReadBack | 3rd/apr-util/xml/apr_xml.c:812-861 | any element with proper names, quoted and written, is read and unquoted to what it was |
| XmlReader.DeclaredIsReadBack | 3rd/apr-util/xml/apr_xml.c:760-769 | the same with the declarations of all namespaces in the start tag |
| XmlDocument.InnermostDecides | 3rd/apr-util/xml/apr_xml.c:84-106 | the declaration that decides a prefix is that of the deepest level that declares it |
| XmlDocument.UndeclaredIsUnbound | 3rd/apr-util/xml/apr_xml.c:108-120 | a prefix is unbound exactly when no level declares it |
| XmlReserved.NameIffNotSetAside | 3rd/apr-util/xml/apr_xml.c:249-297 | a name is expanded as the standard has it exactly when it is not a prefixed name that begins with xml |
| XmlReserved.DocumentAgrees | 3rd/apr-util/xml/apr_xml.c:123-338 | of an accepted document the parser reads the tree of the standard exactly when no name in it is set aside; it refuses no document that the standard gives a meaning |
| XmlParse.FindPrefixMeans | 3rd/apr-util/xml/apr_xml.c:80-121 | the number that is found names the quoted URI of the innermost declaration; without one it is no namespace for the empty prefix, and the error for another |
| XmlParse.ScanAttrsMeans | 3rd/apr-util/xml/apr_xml.c:175-234 | the scan finds the declarations in document order, the language and the plain attributes, and fails exactly on an empty prefixed declaration |
| XmlParse.StartMeans | 3rd/apr-util/xml/apr_xml.c:123-300 | a start tag opens an element with the meaning that its markup has when prefixed names that begin with xml are set aside, or fails as that reading does; its language is its own exactly when it has the attribute |
| XmlParse.ElementMeans | 3rd/apr-util/xml/apr_xml.c:123-338 | the events of an element bring exactly its meaning, with those names set aside, into the tree where it belongs |
| XmlParse.DocumentMeans | 3rd/apr-util/xml/apr_xml.c:123-376 | the tree of an accepted document is the one that section 6 of Namespaces in XML 1.0 means, every number naming the innermost declaration’s URI in a table of distinct URIs, exactly when no prefixed name begins with xml; then errors agree too, and every document with a meaning is accepted |
| XmlParse.MatchesOne | 3rd/apr-util/xml/apr_xml.c:123-338 | a parsed tree stands for one tree of expanded names only |
| XmlParse.ReservedPrefixIsLost | 3rd/apr-util/xml/apr_xml.c:255-257 | a concrete document whose element has a declared prefix that begins with xml and is parsed into no namespace |
| XmlParse.NumbersTellUris | 3rd/apr-util/xml/apr_xml.c:536-595 | two numbers of one tree are equal exactly when the unquoted URIs are |
| XmlParse.ParsedIsNumbered | 3rd/apr-util/xml/apr_xml.c:612-709 | every parsed tree meets what the sizing pass needs of namespace numbers |
| XmlRoundTrip.SerializedMeansTheSame | 3rd/apr-util/xml/apr_xml.c:123-861 | a document that is parsed, quoted, written with all declarations and read again keeps the meaning that it has for the parser: every expanded name, every language and whether it is the element’s own, the attributes in order, the texts and the children |
| XmlRoundTrip.ParsedIsClean | 3rd/apr-util/xml/apr_xml.c:249-297 | the names of a parsed tree can be written and read unambiguously |
| XmlParser.Parser.LookUp | 3rd/apr-util/xml/apr_xml.c:80-121 | the nested loops find what the recursive search over scopes finds |
| XmlParser.Parser.StartHandler | 3rd/apr-util/xml/apr_xml.c:123-300 | the handler performs the step of a start tag, error cases included; after an error it does nothing |
| XmlParser.Parser.ScanList | 3rd/apr-util/xml/apr_xml.c:175-234 | unlinking declarations while scanning leaves the plain attributes in their order, and builds scopes, language and table |
| XmlParser.Parser.EndHandler | 3rd/apr-util/xml/apr_xml.c:302-312 | the finished element belongs to its parent, or is the document |
| XmlParser.Parser.CdataHandler | 3rd/apr-util/xml/apr_xml.c:314-338 | text goes behind the last child, or before all children |
| Uri.SearchSchemes | 3rd/apr-util/uri/apr_uri.c:73-85 | the first entry whose name is equal up to case gives the port, and without one the port is 0 |
| Uri.ParseUri | 3rd/apr-util/uri/apr_uri.c:256-409 | the scans and jumps compute the declarative parse; with the error come the fields that were filled before it |
| Uri.ComponentsAreSeparated | 3rd/apr-util/uri/apr_uri.c:256-409 | no component of an accepted URI holds a delimiter that would end it, and the stored port is the default or the number’s 16 bits |
| Uri.HostRoundTrip | 3rd/apr-util/uri/apr_uri.c:117-152 | the host comes back exactly when its brackets are kept and its port is absent or not taken for the default |
| Uri.RoundTrip | 3rd/apr-util/uri/apr_uri.c:90-173 | unparsing with the password revealed gives back every accepted text exactly when it has no authority, or its port is absent or neither 0 nor the scheme’s, and its brackets hold a colon and stand before the port or the end |
| Uri.PartsMakeTheText | 3rd/apr-util/uri/apr_uri.c:256-409 | for every accepted text, without a condition: what stands before the authority, the authority as it is stored whole, path, query and fragment are the text |
| Uri.RefusedIffBadHost | 3rd/apr-util/uri/apr_uri.c:361-392 | a text is refused exactly when its host opens a bracket that is never closed, or its port is neither empty nor a number |
| Uri.PortOfDecimal | 3rd/apr-util/uri/apr_uri.c:384-388 | decimal digits, with a minus sign or without, are read as that number up to the limits of a long, and its 16 low bits are the port |
| Uri.FlagsDropComponents | 3rd/apr-util/uri/apr_uri.c:90-173 | under every combination of flags the text is that of the URI without the components that the flags leave out, and with eight X for a hidden password |
| Uri.DefaultPortIsLost | 3rd/apr-util/uri/apr_uri.c:126-150 | http://h:80 comes back as http://h |
| Uri.BracketsAreLost | 3rd/apr-util/uri/apr_uri.c:119-150 | http://[h] comes back as http://h |
| Uri.PasswordIsHidden | 3rd/apr-util/uri/apr_uri.c:99-115 | unless it is to be revealed, the password leaves no trace but that there is one |
| Strmatch.Pattern.constructor | 3rd/apr-util/strmatch/apr_strmatch.c:82-118 | the table holds, for every byte, the distance of its last occurrence before the end |
| Strmatch.Pattern.Match | 3rd/apr-util/strmatch/apr_strmatch.c:34-80 | the leftmost occurrence, up to case where that is asked for, or none exactly when there is none; an empty pattern matches at the start |
| Strmatch.Horspool | 3rd/apr-util/strmatch/apr_strmatch.c:34-56 | skipping by the table returns the leftmost occurrence |
| Strmatch.ShiftIsSafe | 3rd/apr-util/strmatch/apr_strmatch.c:43-54 | no occurrence ends inside a shift |
| Sha1.Context.Update | 3rd/apr-util/crypto/apr_sha1.c:220-257 | however a message is cut, the context stands for all bytes passed so far |
| Sha1.Context.Final | 3rd/apr-util/crypto/apr_sha1.c:313-345 | the digest is the fold of the transform over the padded message of section 5.1.1 of FIPS 180-4 |
| Sha1.Context.Count | 3rd/apr-util/crypto/apr_sha1.c:226-230 | the two 32-bit words count bits modulo 2^64, carry included |
| Md5.Context.Update | 3rd/apr-util/crypto/apr_md5.c:198-280 | however a message is cut, the context stands for all bytes passed so far |
| Md5.Context.Final | 3rd/apr-util/crypto/apr_md5.c:285-314 | the digest is the fold of the transform over the padded message of section 3 of RFC 1321, and the context is cleared |
| DigestSpec.CountAdds | 3rd/apr-util/crypto/apr_md5.c:211-215 | the two updates of the count words are one addition modulo 2^64 |
| DigestSpec.CountIs64Bit | 3rd/apr-util/crypto/apr_md5.c:211-215 | the two words together are the number of bits modulo 2^64 |
| DigestSpec.FillBlock | 3rd/apr-util/crypto/apr_sha1.c:231-257 | bytes that complete a block are transformed together with the buffered ones |
| DigestSpec.PadTwoBlocks | 3rd/apr-util/crypto/apr_sha1.c:322-336 | a message end without room for the length takes a block of padding of its own |
| DigestSpec.DecodeEncode | 3rd/apr-util/crypto/apr_md5.c:426-454 | packing words into bytes and back is the identity, in either byte order |
| DigestSpec.PaddedAsStandard | 3rd/apr-util/crypto/apr_sha1.c:313-337 | the padded message is whole blocks: the message, 0x80, the fewest zero bytes that fit, and in the last eight bytes the number of its bits modulo 2^64, low byte first for MD5 and high byte first for SHA-1 |
| Md5.InitialBytes | 3rd/apr-util/crypto/apr_md5.c:158-161 | the four words are the sixteen bytes of section 3.3 of RFC 1321 |
| Md5.BlockWords | 3rd/apr-util/crypto/apr_md5.c:443-454 | the transform gets the sixteen words of a block, low byte first |
| Md5.DigestWords | 3rd/apr-util/crypto/apr_md5.c:306-307 | the digest has the words of the last state in order, low byte first |
| Sha1.InitialBytes | 3rd/apr-util/crypto/apr_sha1.c:208-212 | the five words are the twenty bytes of section 5.3.1 of FIPS 180-4 |
| Sha1.BlockWords | 3rd/apr-util/crypto/apr_sha1.c:245-252 | the transform gets the sixteen words of a block, high byte first |
| Sha1.DigestWords | 3rd/apr-util/crypto/apr_sha1.c:338-344 | the digest has the words of the last state in order, high byte first |
| Base64.RoundTrip | 3rd/apr-util/encoding/apr_base64.c:145-188 | decoding an encoding gives back the bytes, for every input |
| Base64.BasisIsAlphabet | 3rd/apr-util/encoding/apr_base64.c:190-191 | the coding characters are those of table 1 of RFC 4648, in their order: capitals, small letters, digits, plus and slash |
| Base64.SameBits | 3rd/apr-util/encoding/apr_base64.c:244-250 | three bytes and the four values that they are split into are the same 24 bits |
| Base64.PaddedToGroups | 3rd/apr-util/encoding/apr_base64.c:251-264 | the text is whole groups of coding characters, but for an equals sign at the end for each byte that the last group lacks |
| Base64.FirstExamples | 3rd/apr-util/encoding/apr_base64.c:237-268 | f, fo and foo are encoded as in section 10 of RFC 4648 |
| Base64.EncodedLength | 3rd/apr-util/encoding/apr_base64.c:193-196 | the encoded length with its NUL is the length function |
| Base64.Encode | 3rd/apr-util/encoding/apr_base64.c:237-268 | the loop writes section 4 of RFC 4648 with padding and a NUL, and returns the length |
| Base64.DecodeBinary | 3rd/apr-util/encoding/apr_base64.c:145-188 | on every string the result is the number of bytes written, which are the decoding of its coding prefix, and is less than the decoded-length function |
| Base64.ComputeDecodeLen | 3rd/apr-util/encoding/apr_base64.c:110-123 | the decoded-length function counts whole groups of the coding prefix |

## Left out

- RmmAllocator.Allocator.Free: is specified for offsets of blocks and offsets below the first; an arbitrary offset would be read as a header.
- RmmAllocator.Allocator.Realloc: the words that the over-long copy reads behind the region are a parameter of any value; nothing is claimed of what lands behind the old payload.
- RmmAllocator.Allocator.Malloc: sizes and offsets are in 8-byte words and a trailing part of a word is ignored; request sizes are unbounded integers, so the wrap of the aligned size is not modelled.
- Locks, attach, detach and destroy of the allocator; the conversions between offsets and addresses.
- Brigades.Brigade.Partition: the content clause needs files that are as long as their buckets claim; the clause on lengths does not.
- BrigadeWrites.Write: the flush callback is any that takes buckets from the front and keeps the rest; one that changes bytes is not covered.
- Brigades.Brigade.MakeMmap: a mapping is assumed to succeed only inside the file, and the pool of a mapping to outlive its buckets.
- Bucket objects are values in a ring, so two pointers to one bucket, and a bucket in two rings, cannot be expressed; a loose bucket is a value beside the ring.
- Setting buckets aside, socket buckets, `apr_brigade_puts`, the formatted writes and `apr_brigade_to_iovec`; transient memory that changes after the call.
- Read modes: a read that would block is one that fails, so blocking and non-blocking reads are not told apart.
- SignalList.EmitCallsEach: nested emission of one signal, which shares the cursor, and destruction of the signal during its own emission are left out, as are the thread policies.
- HookSort.SortHook: the list is given in crude order, since the result of qsort on equal keys is not determined; on a cyclic graph the loop of the original does not end (`HookGraph.StuckIffCyclic`), so the sort is stated for acyclic ones.
- HookSort.Walk: a slot holds the number of an item instead of a pointer, so the search for a pointer's index is one step.
- Hook registration, optional hooks and functions.
- XmlText.ElemSize: namespace numbers are none or 32-bit and not negative, and so are the mapped ones, as in every parsed tree.
- XmlParser.Parser.StartHandler: Expat delivers the events, so these are given; a finished element is attached to its parent at its end tag, and siblings are a sequence instead of a linked list.
- XmlParse.DocumentMeans: xml:lang gives an element's language and is no attribute of the tree, and constraints that the parser does not check are no part of the meaning: names with one colon, distinct expanded attributes, and no declaration of xml or xmlns.
- XmlParse.ElementMeans: after an error the fields other than the error are not specified, and clearing the error by asking for its message is left out.
- XmlText.QuoteElem: the quoted tree is a new value, where the original replaces strings in place; the text behind the outermost element, which it quotes too, belongs to the parent here.
- XmlRoundTrip.SerializedMeansTheSame: names in the document have at most one colon, between two parts, and no delimiter, as Expat's names do; the text pieces between two tags come back as one, and the table has at most 2^31 namespaces.
- Charset conversion, reading a file into the parser, and `apr_xml_empty_elem`.
- QueueProtocol.StepKeepsInv: a read of the terminated flag outside the mutex gives a value that it had before, or has by then; mutex and condition variable calls do not fail.
- Reslist.ResList.Acquire: safety only; an invalidated resource signals nobody, so waiting may never end. The recycling of containers is left out, and the maintenance pass after a release is a step of its own.
- Uri.ParseUri: a long has 64 bits; `apr_uri_parse_hostinfo` is left out.
- Strmatch.Pattern.constructor: pattern bytes before the last are 7-bit in the case-sensitive form, because the table is indexed by a char that may be signed; lower-casing is that of the C locale.
- Sha1.Context.Update: one call takes fewer than 2^32 bytes; the round function is a parameter, and the translation to ASCII is left out.
- Md5.Context.Update: one call takes fewer than 2^32 - 63 bytes, because of the 32-bit loop index; the round function is a parameter.
- Base64.DecodeBinary: characters are bytes in ASCII, and lengths are unbounded integers.
- Everything else of the player: media decoding, display, user interface, logging, and the database, directory and conversion wrappers of apr-util.
