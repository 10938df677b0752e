# Models of a study repository

A Dafny model of the algorithms and protocols in this repository, with proofs of what they are for. Each module follows
one source file, or one part of a large one.

| module | what it models |
|---|---|
| `LockFreeQueue`, `LockFreeRuns`, `LockFreeCalls`, `LockFreeProgress` | the ring queue of concurrency/multiproducerconsumer_lockfree.c: tickets by fetch-and-add, published positions, watermarks by scanning |
| `NvmePrp` | kernel/nvme.c: scatter lists into chained PRP pages, their release, and the gathering of a bio |
| `NvmeIds`, `NvmeRing`, `NvmeCommands` | kernel/nvme.c: command identifiers, timeouts and aborts; the submission ring with its controller; the code over arrays |
| `NvmeCompletions` | kernel/nvme.c: the phase-bit completion ring drained while the controller posts |
| `Graphs`, `Dijkstra`, `FloydWarshall`, `Prim` | graphproblems.py: shortest paths and minimum spanning trees over dictionaries |
| `BTree` | btree.c: order-5 insertion with splitting, traversal |
| `ShellSort` | sorting.c: shellsort |
| `PriorityQueue` | priorityqueue_heap.c: push, pop and the re-pushing repair of the heap |
| `CondVarBuffer`, `CondVarRuns` | concurrency/producerconsumer_condv2.c: a bounded buffer with two condition variables |
| `NandEcc` | kernel/mtd_platform_bf5xx_nand.c: one-bit correction from two 11-bit sums |
| `CafePatch` | kernel/mtd_pci_cafe_nand.c: 12-bit symbol patterns applied to a page |
| `CasList`, `CasListProgress` | concurrency/blockfreelinkedlist.c: list insertion by compare-and-swap |
| `Common` | options and a little arithmetic of ring positions |

`dafny verify dfyconfig.toml` checks everything.

## How the code is represented

- Code that changes memory step by step is written as methods over arrays and objects, proved against functions and
  predicates on values; the properties are then proved about those. The B-tree nodes are heap objects; the two arrays
  embedded in a node are sequence-valued fields of fixed length, since nothing can alias them. A loop whose body needs
  more than a few facts is a method of its own, so one C function can appear as several methods.
- Concurrent code is a step function over a state with a program counter per thread, and a run is any schedule. Each step
  makes one access to shared memory, memory is sequentially consistent. In `CondVarBuffer` a step is a whole critical
  section, up to unlock or wait.
- History that the code does not keep (what was pushed, popped, posted, registered, handled) is recorded in the state of
  the model so that "exactly once" and "in order" can be said.
- `LockFreeCalls`: which call a thread is in, and what it was given, is read off the schedule alone (`LastCall`).
- `LockFreeQueue`: ULONG_MAX is a value of its own above every position. The declared `head` and `tail` (line 6) and the
  used `head_` and `tail_` are the same variables. Slots are taken modulo the ring size. The initial positions may hold
  anything.
- `NvmePrp`: pages of 4096 bytes. What the two pools will still grant is a parameter, so a refusal can come at any point.
  Decoding follows section 4.3 of NVM Express 1.2 and is defined without reference to the driver.
- `NvmeIds`: the timeout of a record is its deadline, jiffies plus what the caller passes; the sum is a parameter.
- `NvmeIds`: the calls of completion functions are those of the pairs free_cmdid and cancel_cmdid return (`CalledBy`); a pair
  that nvme_abort_command drops is not called (`DroppedBy`). No caller of alloc_cmdid passes NULL.
- `NvmeIds`, `NvmeRing`: a submitter uses identifiers it owns, and the device completes what it has fetched, once; the table
  properties need neither. Each operation is one atomic step.
- `NvmeCompletions`: the controller inverts its phase on every lap and does not post into the slot the head doorbell
  points to. It may post before every read of the host.
- Graphs are dictionaries of dictionaries; sets are walked in any order. `None` is the predecessor -1. The two-level tables
  of Floyd-Warshall are dictionaries keyed by pairs. A KeyError is a result, and the theorems say exactly when it comes.
  `&lt;` at line 178 of graphproblems.py is read as `<`.
- `Prim`: a spanning tree is any assignment of parents, over edges of the graph, with ranks that grow away from the root.
- `NandEcc`: that the controller's registers hold the exclusive or of the addresses of the one bits, and of the
  complements of those addresses, is an assumption.

## Where the code does not do what is expected of it

- `NandEcc`: a zero code, stored or computed, is taken for "no error" (line 246), so one wrong bit can stay. The exact
  condition is part of `OneBitWrong`, `TwoBitsWrong` and `CodeBitWrong`; `UnseenError` names a family.
- `CasList`: insertorder reads the head at line 68 and again at line 72. With two different values some schedule leaves the
  list out of order, with equal ones none does (`SortedIffAllEqual`); `SortedIffNeverStale` says which runs stay sorted,
  `SevenBeforeFive` gives one that does not, `OneReadSorts` shows that one read is enough.
- `BTree`: main overwrites the first number of the input with the second before anything is inserted (lines 58 to 64), so
  that number is in the tree exactly when it occurs again (`Load`, `LoadOneTwo`).
- `NvmeIds`: the records start as zeroes and free_cmdid does not look at the bitmap, so a completion for an identifier below
  q_depth whose record was never written makes nvme_process_cq call NULL. `NullCalledIff` says exactly when.
- Prim and Dijkstra stop with a KeyError on vertices that cannot be reached below 1000; both directions are proved.

## Model

| member | source | states |
|---|---|---|
| `LockFreeRuns.RunKeepsInv` | concurrency/multiproducerconsumer_lockfree.c:15-66 | Every schedule of any number of producers and consumers keeps the invariant: tickets are unique, published positions are at most the tickets they stand for, a running minimum is at most every ticket already scanned past, and neither watermark exceeds an unfinished ticket. |
| `LockFreeRuns.StepKeepsInv` | concurrency/multiproducerconsumer_lockfree.c:15-66 | One atomic step of one thread keeps that invariant, including a stale minimum stored over a newer one. |
| `LockFreeRuns.PopReadsItsPush` | concurrency/multiproducerconsumer_lockfree.c:37-65 | What was read for ticket t is exactly what the push with ticket t stored. |
| `LockFreeRuns.NoOverwriteBeforeRead` | concurrency/multiproducerconsumer_lockfree.c:20-37 | When a producer passes its wait loop, every earlier pointer in its slot has been read. |
| `LockFreeRuns.NoReadBeforeWrite` | concurrency/multiproducerconsumer_lockfree.c:46-63 | When a consumer passes its wait loop, its slot holds the pointer its ticket stands for. |
| `LockFreeRuns.MarksBelowUnfinished` | concurrency/multiproducerconsumer_lockfree.c:25-34 | last_tail_ and last_head_ never exceed an unfinished ticket, however late a scan stores its minimum. |
| `LockFreeRuns.QuiescentAccounting` | concurrency/multiproducerconsumer_lockfree.c:15-66 | With nobody inside, exactly the tickets handed out are done, and at most one ring of pushes is unread. |
| `LockFreeCalls.PushStoredItsArgument` | concurrency/multiproducerconsumer_lockfree.c:17-38 | A push about to return has stored what it was called with, the argument in the schedule at its call, under a ticket that was not in use at the call. |
| `LockFreeCalls.PopReturnsItsPush` | concurrency/multiproducerconsumer_lockfree.c:43-65 | A pop about to return holds what the push that stored under its ticket was called with; that ticket had not been read when the pop was called. |
| `LockFreeCalls.StoredByPush` | concurrency/multiproducerconsumer_lockfree.c:37-37 | Everything stored was stored by some push of the schedule and is what that push was called with. |
| `LockFreeCalls.ReturnsFromClear` | concurrency/multiproducerconsumer_lockfree.c:37-38 | A call returns only by its last store, so the theorems on that place speak of every return. |
| `LockFreeCalls.StaysInCall` | concurrency/multiproducerconsumer_lockfree.c:15-66 | In every run a thread inside push or pop carries its argument, and its ticket and the positions it publishes are not below the ticket counter at its call. |
| `LockFreeCalls.OneTicketPerCall` | concurrency/multiproducerconsumer_lockfree.c:15-66 | A call touches one slot, once. |
| `LockFreeCalls.LaterCallLaterTicket` | concurrency/multiproducerconsumer_lockfree.c:18-44 | A call made after another one has accessed its slot gets a later ticket: first in, first out. |
| `LockFreeProgress.PushAloneCompletes` | concurrency/multiproducerconsumer_lockfree.c:15-39 | A push that runs alone while the watermark, or the counter and all positions published by consumers, are within a ring of its ticket returns after a number of steps given by a formula and changes exactly its slot, counter and watermark. |
| `LockFreeProgress.PopAloneCompletes` | concurrency/multiproducerconsumer_lockfree.c:41-66 | The same for a pop whose ticket is below the watermark, or below the counter and all positions published by producers: it returns the content of its slot. |
| `LockFreeProgress.AloneReachesSlot` | concurrency/multiproducerconsumer_lockfree.c:17-35 | Under that condition, taking a ticket, testing and at most one scan bring a lone thread to its slot; the scan stores the least of what it read. |
| `LockFreeProgress.PushAloneReturnsIff` | concurrency/multiproducerconsumer_lockfree.c:15-39 | Running alone, a push ever returns if and only if that condition holds when it is called; otherwise it scans for ever. |
| `LockFreeProgress.PopAloneReturnsIff` | concurrency/multiproducerconsumer_lockfree.c:41-66 | The same for a pop. |
| `LockFreeProgress.LowestIsLeast` | concurrency/multiproducerconsumer_lockfree.c:25-34 | A ticket is below the minimum a scan arrives at, plus the ring size, exactly when it is below the counter and every published position, plus the ring size. |
| `NvmePrp.SetupPrps` | kernel/nvme.c:390-469 | On every exit, both allocation failures included, and for an iod with room for at least nvme_npages(total_len) pointers, PRP1, PRP2 and the chained list pages decode, byte by byte as section 4.3 of NVM Express 1.2 says, to the first `length` bytes of the buffer. From the buffer and what the pools grant alone: no list for two pages, the small pool for up to 32 entries, the page pool above; `length` is all of it, or two pages when that pool gives nothing, or what the entries of all its pages move; no more pages are used than needed. The pages on record are exactly those allocated, at most nvme_npages(total_len), and no other memory has changed. |
| `NvmePrp.ListDecodes` | kernel/nvme.c:442-466 | A controller walking a list of any number of chained pages reads back exactly the entries that were laid out. |
| `NvmePrp.TransferDecodes` | kernel/nvme.c:405-469 | Entry by entry coverage of the scatter list means byte by byte agreement of the transfer with the buffer. |
| `NvmePrp.TwoPagesDecode` | kernel/nvme.c:419-422 | Without a list, PRP2 addresses the rest of the buffer. |
| `NvmePrp.BuildList` | kernel/nvme.c:424-469 | The list part: which pool is asked for a page, the failure exit, and the fill, with the same exact outcome. |
| `NvmePrp.UseList` | kernel/nvme.c:433-468 | When the pool grants something: the list, its pages and the exact length. |
| `NvmePrp.FillList` | kernel/nvme.c:442-468 | The loop: after every entry the list and the remaining walk make up the buffer; the failure exit reports exactly the bytes listed. |
| `NvmePrp.AddEntry` | kernel/nvme.c:444-454 | One entry, with a new page chained in when the current one is full: the last entry moves to the new page and a pointer takes its place. |
| `NvmePrp.NextPosition` | kernel/nvme.c:455-465 | The walk moves one page on; BUG_ON(dma_len < 0) cannot fire. |
| `NvmePrp.RoomForPage` | kernel/nvme.c:320-324 | When the current page is full and data remains, nvme_npages has left a slot for one more page pointer. |
| `NvmePrp.PagesAreLeast` | kernel/nvme.c:320-324 | nvme_npages is the least number of pages with room for one entry per page of data and one more. |
| `NvmePrp.MoreBytesMorePages` | kernel/nvme.c:320-324 | An iod allocated for at least as many bytes has at least as much room. |
| `NvmePrp.FreeIod` | kernel/nvme.c:342-358 | Releases exactly the recorded (pool, pointer, bus address) triples, each once and each live when released, by following the chain in the last word of each page; what was released is gone from memory and may be handed out again. |
| `NvmePrp.SetupThenFree` | kernel/nvme.c:342-469 | Building a list and releasing it, with an iod allocated for at least the bytes transferred, leaves live allocations, memory and bus addresses as they were, so that the allocator may hand out the same memory again. |
| `NvmePrp.MapBio` | kernel/nvme.c:475-506 | The scatter list gathered from a bio has its bytes in order, as few segments as stretches of touching vectors, no interior boundary off a page, and stops exactly at the first two vectors that do not touch and have an end there off a page boundary. |
| `NvmePrp.ApartIff` | kernel/nvme.c:471-473 | The two macros see exactly the holes between physical addresses. |
| `NvmePrp.MappingKeepsNoHoles` | kernel/nvme.c:501-505 | A DMA mapping that keeps lengths and page offsets keeps the list usable for nvme_setup_prps. |
| `NvmePrp.Dev.PoolAlloc` | kernel/nvme.c:433-433 | An allocation adds one live (pool, pointer, bus address) triple and a page that is not handed out now. |
| `NvmePrp.Dev.PoolFree` | kernel/nvme.c:342-358 | A release requires the triple to be live and takes it, its page and its bus address away; the memory may then be handed out again. |
| `NvmePrp.Iod.constructor` | kernel/nvme.c:326-340 | A new iod has room for nvme_npages page pointers and no list. |
| `NvmeCommands.NvmeQueue.AllocCmdid` | kernel/nvme.c:168-185 | Takes the lowest clear bit below q_depth - 1 and writes handler, context and deadline to its record, changing nothing else; reports -EBUSY, with nothing changed, exactly when there is none. Refines the table specification and the ring machine. |
| `NvmeCommands.NvmeQueue.FreeCmdid` | kernel/nvme.c:229-246 | Returns the registered pair, which is what CalledBy says an OpComplete calls, clears the bit and writes the completed marker to the record, changing nothing else; answers for identifiers that do not exist. |
| `NvmeCommands.NvmeQueue.CancelCmdid` | kernel/nvme.c:248-259 | Returns the registered pair, writes the cancelled marker to the record and leaves the identifier in use. |
| `NvmeCommands.NvmeQueue.TimeoutIos` | kernel/nvme.c:1212-1230 | Puts the cancelled marker at exactly the identifiers below q_depth - 1 that are in use and past their deadline, changes no other record and frees none; calls exactly what was registered at them, the lowest identifier first. |
| `NvmeCommands.NvmeQueue.SubmitCmd` | kernel/nvme.c:278-292 | Writes the command at the tail and moves tail and doorbell one slot on, wrapping at q_depth. |
| `NvmeCommands.NvmeQueue.SubmitFlush` | kernel/nvme.c:508-523 | The same for a flush command built in place. |
| `NvmeCommands.NvmeQueue.SubmitFlushData` | kernel/nvme.c:525-533 | A flush under an identifier of its own, or -EBUSY with ring and table unchanged; allocation and submission are two events the ring machine allows, so the ring theorems apply to it. |
| `NvmeIds.RunKeepsTable` | kernel/nvme.c:168-259 | Over any sequence of allocations, completions, timeouts and aborts, with whatever identifiers the device sends, every allocation is exactly one of: registered, handler called, discarded by an abort. |
| `NvmeIds.HandlersRunOnce` | kernel/nvme.c:168-259 | Over any such sequence, a handler with its context has been called, was taken out by an abort, or waits in a record, altogether exactly as often as it was passed to alloc_cmdid: so one passed once is called at most once, never after its abort, and is never lost. |
| `NvmeIds.CallsAreThoseOfRan` | kernel/nvme.c:168-259 | The handlers called are, in order, those passed by the allocations recorded as run, each of them recorded once; those discarded are those of the allocations recorded as aborted. |
| `NvmeIds.NullCalledIff` | kernel/nvme.c:229-246 | A NULL function is called if and only if the device completes an identifier below q_depth that was never handed out, completed, cancelled or aborted before. |
| `NvmeIds.StrayCompletionCallsNull` | kernel/nvme.c:238-239 | A concrete case: a completion for identifier 0 of a new queue. |
| `NvmeIds.TimeoutCancelsTheLate` | kernel/nvme.c:1219-1229 | After a timeout scan a record is the cancelled marker if its identifier was in use and late, and unchanged otherwise; the bitmap and the allocations aborted are as before. |
| `NvmeIds.TimeoutCallsTheLate` | kernel/nvme.c:1219-1229 | The scan calls what was registered at the late identifiers. |
| `NvmeIds.LateIsListed` | kernel/nvme.c:1219-1229 | The identifiers the scan visits, an increasing list of late ones, miss none. |
| `NvmeIds.DeadlineDecides` | kernel/nvme.c:1219-1229 | As long as a command is neither completed nor aborted, its record holds what alloc_cmdid was given through all scans up to the deadline, and a scan visits it if and only if it comes after the deadline. |
| `NvmeIds.NoEarlyTimeout` | kernel/nvme.c:1219-1229 | In every run, a scan calls a handler only for an allocation that passed it with an earlier deadline. |
| `NvmeIds.RefusesIffFull` | kernel/nvme.c:168-178 | -EBUSY exactly when no identifier below q_depth - 1 is free. |
| `NvmeIds.InUseUntilCompleted` | kernel/nvme.c:248-259 | An identifier in use, cancelled or not, is not handed out again until a completion for it arrives. |
| `NvmeRing.RunKeepsRing` | kernel/nvme.c:168-292 | Every run of allocate, submit, fetch, finish, expire and abort keeps: unread entries are intact and carry distinct identifiers in use. |
| `NvmeRing.RingNeverFull` | kernel/nvme.c:168-182 | Unread entries are at most the identifiers in use, which are at most q_depth - 1. |
| `NvmeRing.SubmissionsArriveInOrder` | kernel/nvme.c:278-292 | The controller reads the commands exactly as submitted, in order; none is overwritten unread. |
| `NvmeRing.TailNeverLaps` | kernel/nvme.c:283-288 | The slot a submitter writes holds nothing unread, and moving the tail never makes a non-empty ring look empty. |
| `NvmeRing.AllocatedIsOwned` | kernel/nvme.c:525-533 | Whoever was given an identifier by alloc_cmdid may submit a command with it. |
| `NvmeCompletions.CompletionQueue.ProcessCq` | kernel/nvme.c:627-664 | With a controller that posts between any two reads, consumes exactly what was posted, once each and in posting order, at most q_depth - 1 entries; completes each identifier in the table and calls what the table says, in order; reports IRQ_NONE exactly when it consumed nothing and then leaves the doorbell alone. |
| `NvmeCompletions.CompletionQueue.Take` | kernel/nvme.c:637-644 | One read: the entry is taken exactly when it has been posted, and it is the one posted there. |
| `NvmeCompletions.CompletionQueue.ControllerPost` | kernel/nvme.c:651-652 | The controller posts unless the next slot is the one the head doorbell points to, and inverts its phase on wrapping. |
| `NvmeCompletions.CompletionQueue.constructor` | kernel/nvme.c:886-901 | A zeroed ring with head 0 and expected phase 1 represents an empty queue. |
| `NvmeCompletions.PhaseTells` | kernel/nvme.c:638-639 | With the controller less than a lap ahead, the phase bit says exactly whether the entry at head is new. |
| `NvmeCompletions.PostKeeps` | kernel/nvme.c:637-643 | Posting the next entry with the phase of its lap keeps the ring readable. |
| `NvmeCompletions.HeadAndPhaseMove` | kernel/nvme.c:656-657 | Head and phase are both where they were exactly when nothing was consumed, within a lap. |
| `NvmeCompletions.FullIffNextIsHead` | kernel/nvme.c:641-643 | The full condition of section 4.1 of NVM Express 1.2: the next slot is the head exactly when q_depth - 1 entries are unacknowledged. |
| `Graphs.PopMin` | graphproblems.py:82-95 | Takes out a vertex of least value below 1000, or fails (the KeyError of `del pqueue[None]`) exactly when there is none. |
| `Dijkstra.Dijkstra` | graphproblems.py:97-123 | Fails exactly when some vertex has no path shorter than 1000; otherwise dist is the length of a shortest path for every vertex, following pred gives a path of that length, every vertex is popped once, nearest first, and among several last steps the one popped first is recorded. |
| `Dijkstra.PoppedIsFinal` | graphproblems.py:113-113 | The vertex popped has its true distance. |
| `Dijkstra.LeavingCosts` | graphproblems.py:114-121 | A path that leaves the popped set costs at least the least key of the queue. |
| `Dijkstra.Shorten` | graphproblems.py:115-121 | A vertex that gets nearer is still in the queue, and all invariants survive its new entries. |
| `Dijkstra.Scan` | graphproblems.py:114-121 | The scan of the neighbours, in any order, relaxes every edge out of u and leaves popped vertices alone. |
| `Dijkstra.RouteExists` | graphproblems.py:121-121 | Predecessor entries followed back from a popped vertex end at the start, over exactly dist. |
| `Dijkstra.Unreached` | graphproblems.py:112-113 | When popmin fails some vertex is out of reach below 1000. |
| `Dijkstra.Initial` | graphproblems.py:105-110 | The dictionaries before the first pop. |
| `FloydWarshall.FloydWarshall` | graphproblems.py:155-182 | For weights 0 to 1000 and no self loops, in any vertex order and in place: dist[u][v] is the smaller of 1000 and the shortest path length; below 1000 the recorded predecessor is the last step of a shortest path; there is none (-1) exactly on the diagonal and at 1000 without an edge, and an edge of weight 1000 keeps its own. |
| `FloydWarshall.Relax` | graphproblems.py:177-180 | One assignment of the innermost loop keeps every entry the length of a real path and brings the pair up to date with the new intermediate vertex. |
| `FloydWarshall.RelaxAll` | graphproblems.py:175-180 | After all pairs of one round, entries account for every path through the vertices done so far. |
| `FloydWarshall.Split` | graphproblems.py:173-177 | A path through t avoids t or contains a way to t and a way from t that together are no longer. |
| `FloydWarshall.DetourBounds` | graphproblems.py:177-179 | An entry that is at most the detour over t bounds every path that may use t. |
| `FloydWarshall.DetourRoute` | graphproblems.py:177-180 | The detour is a path whose last step is the one recorded for t and v. |
| `FloydWarshall.RecordedStep` | graphproblems.py:179-180 | dist[u][v] is dist[u][pred[u][v]] plus the weight of the last edge. |
| `FloydWarshall.CopyRow` | graphproblems.py:162-171 | The rows copied from the graph, with 1000 and the zero diagonal, and u as predecessor exactly where there is an edge. |
| `FloydWarshall.CopyEntry` | graphproblems.py:162-171 | A copied entry is the length of a path or 1000, bounds all direct paths, and has no predecessor exactly on the diagonal and where there is no edge. |
| `FloydWarshall.CopyIsSound` | graphproblems.py:162-171 | The copied tables account for all paths without intermediate vertices. |
| `Prim.Prim` | graphproblems.py:233-252 | Fails exactly when some part of the graph is cut off from the root by edges of 1000 or more; otherwise pops every vertex once, and with undirected edges the predecessors form a spanning tree of least total weight; among equally cheap edges to a vertex the one from the vertex popped first is taken. |
| `Prim.GreedyIsMinimal` | graphproblems.py:245-251 | An order in which every vertex is entered by a cheapest edge from the earlier ones gives a minimum spanning tree. |
| `Prim.GreedyIsLightest` | graphproblems.py:245-251 | No spanning tree, of any shape, weighs less than the greedy one. |
| `Prim.AgreeOnOneMore` | graphproblems.py:246-250 | The exchange: a spanning tree that agrees with the greedy one so far can be made to agree on one more vertex without growing heavier. |
| `Prim.Reattach` | graphproblems.py:246-250 | Turning round the tree path above v and dropping the edge where it entered the upper part leaves a tree; its weight changes by exactly the two edges exchanged. |
| `Prim.NextGreedy` | graphproblems.py:246-246 | The vertex popped is entered by a cheapest edge across the cut. |
| `Prim.NoCut` | graphproblems.py:245-251 | A graph whose vertices were all popped has no part cut off. |
| `Prim.Unreached` | graphproblems.py:245-246 | When popmin fails, the vertices popped so far are cut off from the rest. |
| `Prim.Scan` | graphproblems.py:247-251 | The scan of the neighbours keeps every key the least weight of an edge from the popped vertices, and leaves popped vertices alone. |
| `Prim.Initial` | graphproblems.py:238-243 | The dictionaries before the first pop. |
| `BTree.Tree.Insert` | btree.c:82-99 | Reports Duplicate exactly when the key is present and then changes no key; otherwise the inorder keys are the old ones with the key in its place; all leaves stay at one depth and nodes within their limits; only a split root makes the tree one level higher. |
| `BTree.InsertHelper` | btree.c:101-174 | The recursion: a subtree takes the key in, reports it present, or comes back as two subtrees of the same height with a key between them that together hold exactly the new keys, on objects of the old subtree and new ones. |
| `BTree.InsertBelow` | btree.c:120-120 | The recursive call on one child leaves the row of children well formed: unchanged neighbours, no shared nodes. |
| `BTree.AfterCall` | btree.c:121-173 | What insertHelper does with the result of the recursive call. |
| `BTree.TakeUp` | btree.c:123-173 | The node takes the key that came up, or splits; searching again for the place finds the one the recursive call was made from. |
| `BTree.Node.TakeIn` | btree.c:124-136 | A node with room: one more key and child at the right place. |
| `BTree.Node.MakeRoom` | btree.c:128-134 | The shifting loop inserts the key and the child and loses nothing within the range moved. |
| `BTree.Node.OverFill` | btree.c:140-156 | The node plus the key and the child held outside it are the five keys and six children in order. |
| `BTree.Node.Halve` | btree.c:157-171 | Two keys stay, the middle one goes up, the new node gets the last two and their three children. |
| `BTree.Node.Split` | btree.c:138-173 | Both halves are valid, share no node, and with the key between them hold what the overfull node held. |
| `BTree.Tree.NewRoot` | btree.c:90-98 | A root over the two halves is a valid tree one level higher. |
| `BTree.SearchPos` | btree.c:210-216 | Stops at the first key that is not less. |
| `BTree.Traverse` | btree.c:195-208 | Visits the keys of a subtree in increasing order, all of them. |
| `BTree.Load` | btree.c:58-73 | A whole input: the tree holds exactly the numbers after the first one, in order, without repetition; it holds every number of the input if and only if the input is empty or the first number occurs again. |
| `BTree.LoadOneTwo` | btree.c:58-64 | A concrete case: of the numbers 1 and 2, only 2 is in the tree. |
| `BTree.SamePlace` | btree.c:126-126 | The key that comes up from child pos belongs at pos, so searching again finds the same place. |
| `BTree.InsSplit` | btree.c:117-173 | Replacing one child by two with a key between them inserts the key into the whole. |
| `BTree.InsIntoPart` | btree.c:115-120 | Inserting into the child searchPos selects is inserting into the whole; the key is in the whole exactly when it is in that child. |
| `BTree.InsElements` | btree.c:82-99 | Insertion adds the key and no other. |
| `BTree.InsIncreasing` | btree.c:82-99 | Insertion of a new key keeps increasing order. |
| `BTree.WeaveSplit` | btree.c:138-171 | The keys of a row with one child replaced by two and a key between them. |
| `BTree.KeysOfHeight` | btree.c:21-27 | A tree of height h has at least 2 * 3^(h-1) - 1 keys. |
| `ShellSort.ShellSort` | sorting.c:131-151 | The array ends sorted, a permutation of the input, and ordered for every gap used; the gaps start at half the length and halve down to 1. |
| `ShellSort.ShellPass` | sorting.c:136-149 | One pass leaves the array ordered at its gap and each residue class a permutation of itself. |
| `ShellSort.PassKeepsOrder` | sorting.c:134-150 | The classical theorem: a pass with one gap keeps the order any other gap had established. |
| `ShellSort.PassKeepsPair` | sorting.c:134-150 | The counting argument behind it, for one pair of elements. |
| `PriorityQueue.Pq.constructor` | priorityqueue_heap.c:36-47 | An empty queue with room for at least four elements. |
| `PriorityQueue.Pq.Push` | priorityqueue_heap.c:49-74 | Adds exactly the element, keeps heap order, doubles the room exactly when full, and below capacity moves nothing after the new end. |
| `PriorityQueue.Pq.SiftUp` | priorityqueue_heap.c:60-73 | The sift-up loop with its hole. |
| `PriorityQueue.Pq.SinkHole` | priorityqueue_heap.c:84-104 | The hole left by the root sinks to a leaf along the lesser sons. |
| `PriorityQueue.Pq.OpenHole` | priorityqueue_heap.c:84-104 | What stands before the sunk hole is a heap; before and behind it together is everything but the root. |
| `PriorityQueue.Pq.PushAgain` | priorityqueue_heap.c:112-114 | Pushing one later element again keeps the elements not yet pushed where they are. |
| `PriorityQueue.Pq.PushRest` | priorityqueue_heap.c:108-117 | Pushing every later element again restores the heap and loses nothing. |
| `PriorityQueue.Pq.AdjustTree` | priorityqueue_heap.c:77-125 | Removes exactly the root of a heap of two or more; the array is halved exactly under the stated condition and n stays within alloc. |
| `PriorityQueue.Pq.Pop` | priorityqueue_heap.c:143-158 | Returns data of least priority and removes that element alone; on an empty queue returns 0 and changes nothing, the array included. |
| `PriorityQueue.RootIsLeastOfAll` | priorityqueue_heap.c:151-152 | In a heap no priority is below that of element 0. |
| `PriorityQueue.PushAllPopAll` | priorityqueue_heap.c:49-158 | Any elements pushed and all popped come back, each once, in order of priority. |
| `CondVarRuns.RunKeepsInv` | concurrency/producerconsumer_condv2.c:18-55 | In every run, spurious wakeups included: while somebody sleeps, what he waits for is at most the signals pending and the threads already woken; the values in the buffer and those taken are those put in. |
| `CondVarRuns.StepKeepsInv` | concurrency/producerconsumer_condv2.c:28-55 | One action of one thread keeps that invariant. |
| `CondVarRuns.NotAllAsleep` | concurrency/producerconsumer_condv2.c:33-49 | When everybody sleeps or is finished, everybody is finished. |
| `CondVarRuns.NoDeadlock` | concurrency/producerconsumer_condv2.c:28-55 | With equal total production and consumption some thread can act until all are finished. |
| `CondVarRuns.MeasureDrops` | concurrency/producerconsumer_condv2.c:28-55 | Every action that is not a spurious wakeup uses up a bounded measure. |
| `CondVarRuns.RunsAreShort` | concurrency/producerconsumer_condv2.c:28-55 | The actions of a run and the measure left are at most the initial measure and two per spurious wakeup. |
| `CondVarRuns.RunsComplete` | concurrency/producerconsumer_condv2.c:28-55 | Runs are bounded by eight actions per item, one per thread and two per spurious wakeup; one that can go on by spurious wakeups at most has done all loops, emptied the buffer and consumed exactly what was produced: each value v once for every producer with v loops or more. |
| `CondVarRuns.RunQueues` | concurrency/producerconsumer_condv2.c:29-36 | In every run the value v has been queued once by each producer that has queued v items or more. |
| `CondVarBuffer.LastInFirstOut` | concurrency/producerconsumer_condv2.c:20-24 | A value queued and dequeued at once is the one taken, and the buffer is as before. |
| `NandEcc.CorrectData256` | kernel/mtd_platform_bf5xx_nand.c:226-303 | One bit is inverted when every parity bit differs from its complement bit, and otherwise nothing; the result reports what was not put right; bytes outside the block are not touched. |
| `NandEcc.CorrectData` | kernel/mtd_platform_bf5xx_nand.c:305-322 | The same for each half of a 512-byte block with its own three code bytes; the results are joined. |
| `NandEcc.OppositeTest` | kernel/mtd_platform_bf5xx_nand.c:276-276 | Eleven one bits and a fifth syndrome of 0x7FF mean exactly: each of the eleven pairs is 1 and 0 or 0 and 1, and nothing above them is set. |
| `NandEcc.LaterSyndromes` | kernel/mtd_platform_bf5xx_nand.c:259-263 | The fifth syndrome combines the halves of the first; the second is its low half. |
| `NandEcc.OneBitWrong` | kernel/mtd_platform_bf5xx_nand.c:270-289 | One wrong data bit at any address is put right with result 0 if and only if both codes are non-zero; otherwise result 0 hides it. |
| `NandEcc.UnseenError` | kernel/mtd_platform_bf5xx_nand.c:246-247 | A concrete family where that happens: one wrong bit in a block of zeros goes uncorrected and unreported. |
| `NandEcc.TwoBitsWrong` | kernel/mtd_platform_bf5xx_nand.c:291-302 | Two wrong data bits never change the block; they are reported if and only if both codes are non-zero. |
| `NandEcc.CodeBitWrong` | kernel/mtd_platform_bf5xx_nand.c:249-257 | One wrong bit of the word read as stored code never changes the block; it is reported if and only if both codes are non-zero. |
| `NandEcc.ResultMeans` | kernel/mtd_platform_bf5xx_nand.c:246-302 | For any errors, when neither code is zero: result 0 means that the block left has the stored code and differs from the one read in at most one bit; result 1 means that it was not touched and that neither it nor any block one bit away has the stored code. |
| `NandEcc.NothingWrong` | kernel/mtd_platform_bf5xx_nand.c:246-247 | A block read back intact is left alone with result 0. |
| `NandEcc.CodeSums` | kernel/mtd_platform_bf5xx_nand.c:283-287 | Inverting the bit at address a changes the parity sum by a and the complement sum by the complement of a. |
| `NandEcc.CalculateEcc` | kernel/mtd_platform_bf5xx_nand.c:329-363 | The code bytes read back as the two 11-bit register values side by side, for one or two blocks. |
| `NandEcc.BytesWord` | kernel/mtd_platform_bf5xx_nand.c:346-348 | Three bytes written low byte first and read back give the word. |
| `NandEcc.OneBitWrongInEachHalf` | kernel/mtd_platform_bf5xx_nand.c:226-363 | End to end for 512 bytes: with the code bytes calculated when writing and when reading, one wrong bit in each half is put right with result 0, half by half if and only if the codes of that half are non-zero. |
| `CafePatch.CorrectPage` | kernel/mtd_pci_cafe_nand.c:392-427 | The loop applies exactly the entries before the first that is out of range and ends with the decoder's count, or with -1374 or -2048 for that entry. |
| `CafePatch.PatchOne` | kernel/mtd_pci_cafe_nand.c:398-426 | Each branch, over two buffers and byte boundaries, is the exclusive or of one symbol into the page. |
| `CafePatch.FixIsXorOfSymbol` | kernel/mtd_pci_cafe_nand.c:398-426 | Bit by bit: the pattern is inverted into the twelve bits from 12p - 4 of the page followed by the spare area, and no other bit changes. |
| `CafePatch.MaskBits` | kernel/mtd_pci_cafe_nand.c:413-425 | The bytes a fix touches hold exactly the bits of its symbol, for odd and even positions. |
| `CafePatch.OrderIsIrrelevant` | kernel/mtd_pci_cafe_nand.c:395-427 | Lists with the same entries in any order give the same page. |
| `CafePatch.AppliedTwice` | kernel/mtd_pci_cafe_nand.c:395-427 | The same list applied again gives the page back. |
| `CasList.ListIntact` | concurrency/blockfreelinkedlist.c:55-107 | In every interleaving of both kinds of insertion the list ends, visits no node twice, holds exactly the nodes whose CAS succeeded, and no null pointer is followed. |
| `CasListProgress.EveryCallReturns` | concurrency/blockfreelinkedlist.c:55-107 | From every reachable state a call that runs alone returns within 2n + 9 steps for a list of n nodes, and the list gains its node and changes in no other way; insertfirst puts it in front. |
| `CasListProgress.AloneReturns` | concurrency/blockfreelinkedlist.c:55-107 | The same from any state with an intact list, wherever the call stands. |
| `CasListProgress.StepShortens` | concurrency/blockfreelinkedlist.c:55-107 | Every step of a lone call that does not link its node brings it nearer to its end. |
| `CasListProgress.NextCallPlaces` | concurrency/blockfreelinkedlist.c:55-98 | insertorder run alone from its beginning, on any list, puts its node first exactly when the list is empty or starts with a greater value, and otherwise before the first later node that is not less. |
| `CasListProgress.AloneSorts` | concurrency/blockfreelinkedlist.c:55-98 | On a list in order, a lone call of insertorder leaves it in order if and only if it is not about to replace a smaller head that it tested before. |
| `CasListProgress.NextCallSorts` | concurrency/blockfreelinkedlist.c:55-98 | So one that begins after any run that kept the list in order keeps it in order. |
| `CasListProgress.AloneIsRun` | concurrency/blockfreelinkedlist.c:55-107 | Running alone is a run that schedules only that call. |
| `CasList.StepKeepsInv` | concurrency/blockfreelinkedlist.c:55-107 | One step keeps the list; it changes only by a successful CAS, which puts the caller's node first or right after prev. |
| `CasList.FirstReverses` | concurrency/blockfreelinkedlist.c:100-107 | With insertfirst alone the list is the reverse of the order of the successful CASes. |
| `CasList.SortedIffNeverStale` | concurrency/blockfreelinkedlist.c:55-98 | Run by run: insertorder calls from the empty list leave it sorted if and only if no CAS put a node in front of a smaller head. |
| `CasList.SortedIffAllEqual` | concurrency/blockfreelinkedlist.c:55-98 | For given calls, every schedule of the source, with its two reads of the head, leaves the list sorted if and only if all values are equal. |
| `CasList.OneReadSorts` | concurrency/blockfreelinkedlist.c:63-76 | If lines 68 and 72 use one read of the head, every run leaves the list sorted. |
| `CasList.CrossedReads` | concurrency/blockfreelinkedlist.c:63-76 | Whenever one call's value exceeds another's, a schedule of these two calls, given step by step, ends out of order. |
| `CasList.SevenBeforeFive` | concurrency/blockfreelinkedlist.c:63-76 | A concrete case: calls for 7 and 5 end with the list 7, 5. |
| `CasList.StepKeepsSorted` | concurrency/blockfreelinkedlist.c:55-98 | A step that is not stale keeps the list sorted and every call's place in it. |
| `CasList.StaysUnsorted` | concurrency/blockfreelinkedlist.c:94-97 | A list out of order is never put in order again. |

## Left out

- Unsigned counters and lengths are unbounded integers: wrap-around of head_, tail_ and jiffies, and integer overflow in sizes, are not modelled. time_after is `>`.
- Weak memory, compiler reordering and sched_yield: the concurrent models are sequentially consistent.
- Fairness: progress is stated for a thread running alone (`LockFreeProgress`, `CasListProgress`) and by a bounded measure (`CondVarRuns`).
- Failure of malloc and realloc, printing, file and device access, pthread set-up.
- NvmeCommands.NvmeQueue.AllocCmdid: one atomic step; that the bit is set before the record is filled, and what lock-free readers could see between, is not modelled.
- NvmePrp.MapBio: dma_map_sg and its failure exit are not modelled; `MappingKeepsNoHoles` says what is needed of the mapping.
- NvmePrp.FreeIod: the final kfree of the iod is not modelled.
- nvme_submit_bio_queue, which here uses an untested identifier (line 561) and takes its length from another variable (line 587); probe, remove, ioctl, admin commands, interrupt and PCI set-up in kernel/nvme.c.
- FloydWarshall.FloydWarshall: weights above 1000, negative weights and self loops are outside its precondition, where the table would not be the smaller of 1000 and the distance.
- Dijkstra.Dijkstra: edges to vertices that are not keys of the graph, and a start that is not one, are outside its precondition.
- Prim.Prim: minimality is stated only for undirected edges, and against trees given by parents and ranks.
- BTree.Traverse: the keys are returned, not printed; display is not modelled.
- Insertion into the B-tree below a split is not compared with any other tree of the same keys: only the keys, the order and the shape limits are stated.
- CafePatch.CorrectPage: the Reed-Solomon decoder and the statistics kept by the caller are not modelled; positions are not negative and patterns have twelve bits, as the decoder promises.
- NandEcc.CalculateEcc: how the hardware computes its registers.
- CasList.ListIntact: nodes are never freed, as in the source, so a reused address cannot occur.
- Breadth-first and depth-first search, quicksort, heapsort, merge sort (its copy-back loop runs one step too far), changing a priority in place (which does not restore heap order), the other producer-consumer variants and the two-lock queue: easier, or their intended claims do not hold.
- Reading pages, programming, bad-block handling and register access of the two NAND drivers.
