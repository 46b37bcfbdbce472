# Anbox, verified

A Dafny model of the parts of Anbox that keep the most state: the binder and
ashmem kernel drivers, the buffered byte stream between the container and the
renderer, the encoder of the Android IP configuration, and the parser of modem
commands.  Both drivers run every command under one lock, so each method of
their models is one atomic step, and each `Run` theorem speaks of every
sequence of steps from the initial state.

The modules, with the files of the same or a similar name:

* `CallChains`, `CallSteps`, `CallDriver`, `CallTheorems`: synchronous binder
  calls.  Records link to each other through `from_parent` and `to_parent` and
  to threads through their stacks; a ghost chain per outermost call says what
  all those links must be.
* `OneWayTable`, `OneWayDriver`, `OneWayRuns`: one-way calls, one at a time for
  each node.
* `BufferLayout`, `BufferRow`, `SearchTree`, `TreeOrder`, `BufferIndex`,
  `BufferSpace`, `BufferRuns`: the buffer allocator, with its row of buffers, two search trees,
  page table and budget for one-way calls.  Page and header size are parameters.
* `NodeCounts`, `NodeTable`, `NodeSteps`, `NodeAlerts`, `NodeDriver`, `NodeRuns`:
  nodes, references, their counts, and whether owners get to know.
* `DeathTable`, `DeathDriver`, `DeathRuns`: death notices.
* `FixupRules`, `FixupScan`: the walk over the objects of a transaction.
* `AshmemRanges`, `AshmemSteps`, `AshmemDriver`, `AshmemRuns`: unpinned ranges
  of shared memory, against the specification of plain sets of pages.
* `BufferQueues`, `ByteStreams`: the bounded queue and the input side of the
  stream, for every interleaving of a poster, a reader and a stop.
* `BinaryWriters`, `IpConfigs`, `IpConfigDecoding`: the bounded writer, the
  encoder, and a decoder that shows what the encoding loses.
* `AtParsers`: command splitting and dispatch.
* `Wrappers`, `Sequences`: what the others share.

Mutable objects of the source are classes with a `Valid()` predicate; where an
invariant is large it is a predicate on values, each step has a lemma about the
value it produces, and the class methods assign that value.  I/O, clocks, user
memory, memory allocation and security hooks are parameters (`memory`, `denied`,
`fails`, `fault`, `faults`, `usable`); names that the source gets from an
allocator or a counter are parameters or a counter field.

## Findings

* A call whose chosen target thread is its sender makes the check of
  `binder.c:1929` fire for a reply that the sender sends before it reads the call;
  once it has read it, `to_thread` and `to_parent` are set and the reply passes.
  `NeverMismatched` proves that it fires in no state of a
  run without such a call, `SendSafeIffNotToSelf` that a send makes a state in
  which it can fire exactly if the call is one, and `SelfCallReachable` exhibits a
  run that gets there.
* When the room in the read buffer ends exactly between two pending codes, the
  read path returns the second slot and clears nothing, so it is returned again
  (`binder.c:2723-2730`); `ReadErrors` says so exactly, and `TwoCodesReachable`
  exhibits a run with two codes pending.
* A one-way call that is lost with an exiting thread is never freed by the
  user, so its node receives nothing more while its owner lives.
  `OneWayRuns.Step` proves which event does this and that it stays so,
  `StuckReachable` exhibits a run.
* Allocation followed by a free restores everything but the order of the free
  tree: the buffer moves behind all free ones of its size.  `AllocateThenFree`
  proves that the order is restored if and only if the buffer that fits was the
  last of its size, and `OrderLost` exhibits a run where it was not.  The trees of
  the model are not rebalanced; `RotatedOrderLost` shows that the order is lost in
  the same state with the tree that red-black insertion builds.  Size fields of free
  headers, which are never read, are not part of the model.
* Unpinning without memory can forget that a page was purged: `Unpin` proves
  exactly when, `MarkForgotten` exhibits a run.  Pinning without memory pins the
  upper part of a range that was to be cut as well; `Pin` proves exactly when that
  forgets a purge, and `TailForgotten` exhibits a run.  `FirstLoss` proves for every
  run that all purges are known up to the first such request and not after it.
* A weak handle that is passed on can be put into the receiver's buffer without
  being counted, because the result of `binder_inc_ref` at `binder.c:1696` is
  ignored; `SendHandle` proves exactly when, `WeakUncounted` exhibits a run.
* An IP configuration is read back unchanged if and only if its strings are
  shorter than 65536 bytes; `LongCollision` gives different configurations that
  share an encoding.
* The comment above `binder_validate_fixup` gives 16 as the minimal offset after
  child C in its example; the code asks for the end of C's pointer, 24.  The
  model follows the code.
* The shrinker's comment promises to stop after `nr_to_scan` pages; the code
  counts ranges, and a limit of 0 wraps around and purges everything.  The model
  follows the code.

## Model

| member | source | states |
|---|---|---|
| `CallTheorems.Run` | modules/anbox/binder/binder.c:1871-2296 | after every sequence of spawns, sends, deliveries, replies, failures, error reads, thread exits and releases, with no call addressed to its own sender, the chain invariant holds; the checks at 1255-1256, 1929 and 3142 are preconditions met on the way |
| `CallTheorems.Step` | modules/anbox/binder/binder.c:2298-3150 | one command in any state of a run keeps the invariant |
| `CallTheorems.NestingIsLinear` | modules/anbox/binder/binder.c:2228-2235 | at most one live call is nested directly in a call: live calls form chains |
| `CallTheorems.NestedPosition` | modules/anbox/binder/binder.c:2228-2235 | a nested call sits one place inside a live, delivered call that is served by its sender, so nesting has no cycles |
| `CallTheorems.InnermostIsActive` | modules/anbox/binder/binder.c:1903-1991 | the innermost call of a chain is queued or on top of a live server's stack, and its living caller waits for exactly this call |
| `CallTheorems.CallerOnTop` | modules/anbox/binder/binder.c:1251-1266 | the living caller of the innermost call has it on top of its stack and its second error slot free |
| `CallTheorems.NothingDangles` | modules/anbox/binder/binder.c:3111-3150 | no record names an exited thread and no stack an ended call |
| `CallTheorems.SendSafeIffNotToSelf` | modules/anbox/binder/binder.c:1970-1991 | after a send there is a thread whose reply would fail the caller check if and only if the sender addressed itself |
| `CallTheorems.SelfCallReachable` | modules/anbox/binder/binder.c:1986-1991 | a run in which the search of line 1988 picks the sender, up to the state in which its reply would fail the check |
| `CallTheorems.NeverMismatched` | modules/anbox/binder/binder.c:1924-1938 | in no state of a run is there a thread whose reply would fail the caller check |
| `CallTheorems.TwoCodesReachable` | modules/anbox/binder/binder.c:1275-1318 | a run after which both error slots of a thread are taken, by the failure of its own reply back to itself, and a read with room for one code returns it and clears nothing |
| `CallDriver.Driver.FindTarget` | modules/anbox/binder/binder.c:1978-1991 | the loop finds nothing exactly if no live caller of the chain is in the target process, and otherwise the outermost one that is |
| `CallDriver.OutermostIsFirst` | modules/anbox/binder/binder.c:1986-1990 | the thread the search is specified by is the first live caller from the root on that is in the process, and none exactly if there is none |
| `CallDriver.Driver.Send` | modules/anbox/binder/binder.c:1940-2296 | exactly when a call is accepted, the whole new state if it is, which error is left if it is not, and that only a call to oneself leaves the chains; a nested call is queued for the outermost live caller of its chain in the target process, and for the process exactly if there is none |
| `CallDriver.Driver.Deliver` | modules/anbox/binder/binder.c:2995-3003 | the call goes on top of the server's stack and its chain gets its server |
| `CallDriver.Driver.Reply` | modules/anbox/binder/binder.c:1903-1938 | a reply is accepted exactly when the replier serves the innermost call, its caller lives and nothing fails; then both stacks are what they were when the call was sent and when it was delivered; otherwise exactly the calls up to the innermost live caller end, and exactly the replier and that caller get which error in which slot |
| `CallDriver.Driver.SendFailedReply` | modules/anbox/binder/binder.c:1268-1319 | exactly the calls up to the innermost live caller end, that caller gets the code, its older error moves to the free second slot, and nobody else changes |
| `CallDriver.Driver.Answer` | modules/anbox/binder/binder.c:1923-1938 | an accepted reply takes the call off both stacks; its caller is waiting for exactly this call |
| `CallDriver.Driver.FailOne` | modules/anbox/binder/binder.c:1275-1318 | one round ends one call, and is the last exactly at a live caller or at the root |
| `CallDriver.Driver.FailCaller` | modules/anbox/binder/binder.c:1275-1300 | the "has error code already" branch is not taken |
| `CallDriver.Driver.PopTransaction` | modules/anbox/binder/binder.c:1251-1266 | the call leaves its caller's stack, on top of which it must be |
| `CallDriver.Driver.ReadErrors` | modules/anbox/binder/binder.c:2722-2738 | what is returned is what leaves the slots, second slot first, except where the room ends between two codes: then nothing is cleared; an end inside a code is not noticed |
| `CallDriver.Driver.FreeThread` | modules/anbox/binder/binder.c:3111-3150 | every record forgets the thread; if it held the innermost call of its chain, exactly the calls up to the innermost live caller end and that caller is told; nothing else changes |
| `CallDriver.Driver.ForgetThread` | modules/anbox/binder/binder.c:3118-3143 | the walk down an exiting thread's stack visits exactly the calls that mention it, and its last branch is not reached |
| `CallDriver.Driver.ReleaseThreadQueue` | modules/anbox/binder/binder.c:3034-3049 | only an orphaned call can be in the queue of an exited thread; it fails up its chain, and nothing else changes |
| `CallDriver.Driver.ReleaseProcQueue` | modules/anbox/binder/binder.c:3034-3049 | exactly the chains whose innermost call is queued for the process fail up to their innermost live callers, which are told; all other calls, chains and threads stay as they are |
| `CallSteps.TopServedIffActive` | modules/anbox/binder/binder.c:1911-1923 | the call on top of a thread's stack names it as server exactly when the thread is the active end of its chain |
| `CallSteps.SendKeeps` | modules/anbox/binder/binder.c:2228-2235 | pushing a call keeps the invariant |
| `CallSteps.DeliverKeeps` | modules/anbox/binder/binder.c:2995-2998 | so does taking one |
| `CallSteps.PopLiveKeeps` | modules/anbox/binder/binder.c:1275-1300 | so does failing a call for a live caller |
| `CallSteps.PopDeadKeeps` | modules/anbox/binder/binder.c:1303-1318 | so does failing one whose caller is gone |
| `CallSteps.ExitKeeps` | modules/anbox/binder/binder.c:3118-3145 | so does the exit of a thread in the middle of a chain |
| `OneWayRuns.Run` | modules/anbox/binder/binder.c:2236-2246 | every run of sends, receptions, frees and exits keeps the one-way invariant |
| `OneWayRuns.Step` | modules/anbox/binder/binder.c:3034-3049 | one event keeps it; a node gets stuck exactly by the exit of a thread with its call in its list, and then receives nothing until its owner exits |
| `OneWayRuns.StuckReachable` | modules/anbox/binder/binder.c:3034-3049 | a run that leaves a node stuck with a call sent and not received |
| `OneWayRuns.OneInFlight` | modules/anbox/binder/binder.c:2236-2246 | two calls to a node that are both out are the same call, and `has_async_transaction` is set if and only if one is |
| `OneWayRuns.ReceivedInOrder` | modules/anbox/binder/binder.c:2236-2246 | what a node has received is a beginning of what was sent to it, and the rest is all accounted for |
| `OneWayRuns.NextIsEarliest` | modules/anbox/binder/binder.c:2800-2807 | the call a work list offers is the earliest its node has not received |
| `OneWayDriver.OneWay.Send` | modules/anbox/binder/binder.c:2236-2248 | a call waits at the end of a busy node's list, and otherwise goes to the end of the owner's list and makes the node busy; nothing else changes |
| `OneWayDriver.OneWay.Receive` | modules/anbox/binder/binder.c:2993-3003 | the first call of the thread's or process's list leaves it and is received, and it is its node's call in flight; nothing else changes |
| `OneWayDriver.OneWay.FreeBuffer` | modules/anbox/binder/binder.c:2437-2477 | exactly which frees are refused; for the others the check at 2467 holds, and the next waiting call moves to the end of the freeing thread's list or the node becomes idle; nothing else changes |
| `OneWayDriver.OneWay.FreeThread` | modules/anbox/binder/binder.c:3026-3049 | exactly the calls in the thread's list are lost, and stay in flight |
| `OneWayDriver.OneWay.Exit` | modules/anbox/binder/binder.c:3656-3730 | the owner's nodes, lists and calls go, all others stay as they are |
| `OneWayDriver.SendKeeps` | modules/anbox/binder/binder.c:2236-2248 | the invariant after a send |
| `OneWayDriver.TakeKeeps` | modules/anbox/binder/binder.c:2993-3003 | the invariant after the head of a list is received or dropped |
| `OneWayDriver.FinishKeeps` | modules/anbox/binder/binder.c:2466-2473 | the invariant after a free |
| `BufferRuns.Run` | modules/anbox/binder/binder.c:716-940 | after any run of requests: the buffers tile the region, no two free ones touch, an allocated one has room for its request and not for another buffer besides, a page is mapped exactly when a header or allocated data is on it, the trees partition the buffers and the budget is exact |
| `BufferSpace.Space.AllocBuf` | modules/anbox/binder/binder.c:716-828 | a request succeeds if and only if its true size is a 64-bit number, its cost is within the budget, a free buffer has room and the pages of the one that fits best can be mapped; then the exact row, trees and budget, with the rest of the buffer cut off exactly if that leaves more than 4 bytes behind a header; otherwise nothing changes |
| `BufferSpace.Space.CheckSize` | modules/anbox/binder/binder.c:736-756 | the size test accepts exactly the requests whose true size is a 64-bit number; the budget test compares the true cost, or what is left of it after wrapping around, which no buffer has room for |
| `BufferSpace.Space.FindFit` | modules/anbox/binder/binder.c:758-782 | the search finds a free buffer of least sufficient size, and fails exactly when there is none |
| `BufferSpace.Space.MapPages` | modules/anbox/binder/binder.c:609-714 | only unmapped pages are mapped, and a failure at any page restores the table |
| `BufferSpace.Space.TakePages` | modules/anbox/binder/binder.c:688-706 | only mapped pages are freed |
| `BufferSpace.Space.Commit` | modules/anbox/binder/binder.c:803-828 | the trees and budget after taking a buffer, and the row, in which a free buffer starts behind the data exactly if it has more than 4 bytes |
| `BufferSpace.SplitExact` | modules/anbox/binder/binder.c:788-812 | a buffer is split exactly if more than 4 bytes would be left behind another header, and nothing else in the row changes |
| `BufferSpace.Space.DeleteFreeBuffer` | modules/anbox/binder/binder.c:840-883 | merging unmaps exactly the header pages that nobody else needs |
| `BufferSpace.Space.Merge` | modules/anbox/binder/binder.c:918-939 | both neighbours are absorbed; the trees are exactly what erasing and inserting makes of them and are in order again, although sizes change while a buffer is in one |
| `BufferSpace.Space.FreeAtIndex` | modules/anbox/binder/binder.c:885-940 | a free buffer takes the place of the allocated one and its free neighbours, and its charge returns |
| `BufferSpace.Space.Lookup` | modules/anbox/binder/binder.c:585-607 | a user pointer finds an allocated buffer if and only if it names that buffer's data |
| `BufferSpace.Space.constructor` | modules/anbox/binder/binder.c:3455-3484 | one free buffer with its first page mapped and half the region as budget |
| `BufferSpace.Space.ReleaseAll` | modules/anbox/binder/binder.c:3711-3730 | freeing everything leaves one free buffer, the first page and the full budget |
| `BufferSpace.Space.AllocateThenFree` | modules/anbox/binder/binder.c:716-940 | the allocation succeeds exactly as `AllocBuf` says, and the free undoes it in the row, pages, budget and tree of allocated buffers; in the free tree the buffer moves behind those of its size, so that the order is the same if and only if it was the last of them |
| `BufferRuns.OrderLost` | modules/anbox/binder/binder.c:527-558 | a run of seven allocations and three frees after which allocating and freeing once more leaves the free tree in another order |
| `BufferRuns.HolesReached` | modules/anbox/binder/binder.c:716-940 | the run itself: the exact row and free tree that it ends in |
| `BufferRuns.RotatedOrderLost` | modules/anbox/binder/binder.c:544-558 | the same state with the tree in the shape that rotations give it: another buffer fits first, and the order is lost as well |
| `TreeOrder.ReinsertOrder` | modules/anbox/binder/binder.c:527-558 | erasing an address and inserting it again restores the order of a tree if and only if no later address has its key |
| `TreeOrder.InsertOrder` | modules/anbox/binder/binder.c:544-556 | insertion goes right at equal keys: the address comes behind the last key that is not larger |
| `TreeOrder.EraseOrder` | modules/anbox/binder/binder.c:803-805 | erasing leaves the order of the others |
| `BufferSpace.BudgetOfFit` | modules/anbox/binder/binder.c:750-751 | where a buffer fits, the sum that is compared with the budget does not wrap around |
| `BufferRow.FreeUndoesAllocate` | modules/anbox/binder/binder.c:803-812 | the row before an allocation is the row after freeing that buffer, split or not |
| `BufferRow.RequestSizeExact` | modules/anbox/binder/binder.c:736-751 | the wrap-around checks compute the true sum of aligned sizes, or refuse it when it does not fit |
| `BufferRow.StoredSizeExact` | modules/anbox/binder/binder.c:892-907 | the size recomputed at the free is the size charged |
| `BufferRow.FreedCoalesced` | modules/anbox/binder/binder.c:920-939 | freeing leaves no two free neighbours |
| `BufferRow.TakenCharges` | modules/anbox/binder/binder.c:820-828 | what an allocation takes from the budget is what the row is charged |
| `BufferRow.FreedCharges` | modules/anbox/binder/binder.c:902-907 | what a free returns is what the row was charged |
| `BufferLayout.AllocatedPages` | modules/anbox/binder/binder.c:787-801 | the pages needed after an allocation are those needed before and the range that is mapped |
| `BufferLayout.WholeBufferPages` | modules/anbox/binder/binder.c:914-917 | the pages needed only by a buffer's data are those between its page-aligned start and the page of its end |
| `BufferLayout.DropPages` | modules/anbox/binder/binder.c:840-883 | the pages needed once a header is gone |
| `BufferLayout.SharedPages` | modules/anbox/binder/binder.c:846-868 | comparing the pages of adjacent headers finds every sharer |
| `BufferSpace.NothingAllocated` | modules/anbox/binder/binder.c:3479-3484 | with nothing allocated the state is the initial one |
| `BufferSpace.PagesDetermined` | modules/anbox/binder/binder.c:609-714 | the row determines the page table |
| `SearchTree.InsertSorted` | modules/anbox/binder/binder.c:527-558 | insertion keeps the order and adds the address |
| `SearchTree.EraseSorted` | modules/anbox/binder/binder.c:803-805 | so does erasing, which removes it |
| `SearchTree.BestFit` | modules/anbox/binder/binder.c:758-775 | the descent returns a least sufficient key, or none if there is none, and among equal keys the first it meets |
| `SearchTree.Find` | modules/anbox/binder/binder.c:595-605 | the descent finds an address if and only if it is there |
| `BufferIndex.AbsorbNext` | modules/anbox/binder/binder.c:920-928 | the trees stay in order for every other buffer while the next one is absorbed |
| `BufferIndex.AbsorbInto` | modules/anbox/binder/binder.c:929-937 | so they do while the buffer is absorbed into the previous one, whose key changes in place |
| `BufferIndex.AllocatedKeeps` | modules/anbox/binder/binder.c:803-812 | the row and both trees after a split |
| `NodeRuns.Run` | modules/anbox/binder/binder.c:1001-1249 | every run of commands on nodes, references, buffers and exits keeps the counts exact and the notices about every object in order; if no thread exits with work, every living owner holds each node as it is needed or has a work entry for it, and every node without owner has a reference |
| `NodeRuns.CountsExact` | modules/anbox/binder/binder.c:1001-1078 | the internal count is the number of strong references; the local counts are pending acknowledgements, holds of the owner's buffers and the context manager's own; strong implies weak |
| `NodeRuns.IndexesAgree` | modules/anbox/binder/binder.c:1104-1168 | the index by descriptor and the index by node hold exactly the references of the table, each under its own key, and every referenced node exists |
| `NodeRuns.ReferencesApart` | modules/anbox/binder/binder.c:1104-1168 | a process has at most one reference to a node and at most one under a descriptor |
| `NodeDriver.ForwardNeverRejected` | modules/anbox/binder/binder.c:1660-1697 | taking a strong reference for a third process never fails at a node with a strong reference |
| `NodeRuns.Step` | modules/anbox/binder/binder.c:1037-1078 | a node leaves the table only when no reference to it is left and, unless its owner exits, only when the notices about its object have led back to holding nothing; the log of an object grows by one notice exactly when its owner reads work about a node it holds otherwise than needed, is marked where the context manager is presumed to hold its object, ends with its process and is touched by nothing else; only reading, acknowledging and the owner's exit change what an owner was told and has answered; and a node that was new, held as needed or had a work entry is held as needed or has one afterwards, and one that was needed, held or queued is so or gone, except for the node whose entry goes with an exiting thread |
| `NodeRuns.NoticesNested` | modules/anbox/binder/binder.c:2823-2891 | the notices about every object, which are those of the log that `Step` extends, are well nested through all the nodes it has had, and lead to what its node says its owner holds |
| `NodeDriver.PickDesc` | modules/anbox/binder/binder.c:1134-1140 | the new descriptor is the least unused one |
| `NodeDriver.Nodes.GetRefForNode` | modules/anbox/binder/binder.c:1104-1168 | the process's reference to the node, or a new one under the least unused descriptor |
| `NodeDriver.Nodes.IncRef` | modules/anbox/binder/binder.c:1196-1218 | exactly when a strong or weak increment succeeds, the reference after it, and the node after it: only a first count reaches it, and with a work list it is queued exactly if the owner does not hold it so |
| `NodeDriver.Nodes.DecRef` | modules/anbox/binder/binder.c:1220-1249 | an underflow is refused; the reference is deleted exactly when both counts are gone |
| `NodeDriver.Nodes.DeleteRef` | modules/anbox/binder/binder.c:1171-1194 | the reference goes; its node stays with only the strong count and the work entry changed, or goes with nobody holding it; work is queued exactly if a need ends of which the owner knows; no other node changes |
| `NodeDriver.Nodes.RefCommand` | modules/anbox/binder/binder.c:2320-2372 | exactly when each of the four commands succeeds and what it does to the references; an increment on descriptor 0 goes to the context manager's node, makes the reference if there is none, and always succeeds |
| `NodeDriver.Nodes.Acknowledge` | modules/anbox/binder/binder.c:2374-2428 | exactly the acknowledgements of pending notices under the right cookie are accepted; the node stays, nothing is pending any more and the count that stood for it is gone, and work is queued exactly if that ends the need |
| `NodeDriver.Nodes.ReadWork` | modules/anbox/binder/binder.c:2823-2891 | there is a notice exactly if the owner holds the node otherwise than it is needed, to hold what is needed and not held, weakly first, or to give back what is held and not needed, strongly first; the exact node after it; it is appended to the owner's log, RELEASE and DECREFS only with nothing pending; a node is freed only without references, and no other node changes |
| `NodeDriver.Nodes.SetContextManager` | modules/anbox/binder/binder.c:3248-3290 | exactly when there is a new context manager, with the security hook, the user of the first one and memory; the exact table then, with a node that counts as acquired and a mark in its log that this was presumed and not sent; and which user may be the next |
| `NodeDriver.Nodes.TranslateBinder` | modules/anbox/binder/binder.c:1600-1650 | exactly when a sent object is accepted, which takes the cookie it was first sent with; it then becomes a handle to its node in the receiving process, held by the buffer, and otherwise nothing is held or referenced; a first count of the receiver leaves work for an owner that does not hold the object so; no log changes |
| `NodeDriver.Nodes.TranslateHandle` | modules/anbox/binder/binder.c:1652-1705 | a handle is accepted if and only if the sender has it as strongly as it is sent, the hook allows it, and the receiver owns the node, has a reference or there is memory for one; it becomes the node itself for its owner and a handle for anybody else, and a refusal changes nothing |
| `NodeDriver.Nodes.HoldTarget` | modules/anbox/binder/binder.c:1942-1961 | a call takes hold of its target exactly if the sender has a strong handle to it, or it is the context manager, and its owner lives; nothing else changes |
| `NodeDriver.Nodes.SendHandle` | modules/anbox/binder/binder.c:1687-1696 | a handle, strong or weak, is given if and only if there is a reference or memory for one: a strong one is never rejected; exactly when a weak one is counted, when work is left for the owner, and no other reference changes |
| `NodeRuns.WeakUncounted` | modules/anbox/binder/binder.c:1687-1697 | a run in which the thread that was to read about a weakly referenced node exits, after which a weak handle is passed on and not counted |
| `NodeDriver.Nodes.ReleaseBuffer` | modules/anbox/binder/binder.c:1468-1598 | a buffer gives back one count for each of its holds, references without counts go, and no other buffer changes |
| `NodeDriver.Nodes.ReleaseProc` | modules/anbox/binder/binder.c:3656-3710 | an exit leaves no node owned by the process and no reference of it, and every other reference unchanged; its nodes stay exactly as long as others refer to them, without owner, local counts and work; nodes of others change only in strong count and work entry, or go with nobody holding them; exactly the logs of the process end |
| `NodeCounts.NoticeInOrder` | modules/anbox/binder/binder.c:2823-2891 | every notice is the next step of INCREFS, ACQUIRE, RELEASE, DECREFS, and none gives back what is not yet acknowledged |
| `NodeCounts.FreedUnused` | modules/anbox/binder/binder.c:1037-1078 | a decrement frees a node only if nothing refers to it and nobody holds it |
| `NodeAlerts.IncHeeded` | modules/anbox/binder/binder.c:1001-1035 | an increment leaves an owner that holds the node as needed, or has work, in that state |
| `NodeAlerts.DecHeeded` | modules/anbox/binder/binder.c:1037-1078 | so does a decrement, and it does not leave a node without owner and references |
| `NodeAlerts.DecWanted` | modules/anbox/binder/binder.c:1037-1078 | a node that a decrement leaves is needed, held by its owner or queued; one that is none of these is freed |
| `DeathRuns.Run` | modules/anbox/binder/binder.c:2538-2664 | every run keeps the invariant of death records, and every record that was ever asked for is there or has been freed, and not both |
| `DeathRuns.Step` | modules/anbox/binder/binder.c:2538-2664 | a record joins the freed ones exactly when it leaves the table, and none that ever was comes back; only a read tells of a death, of a node whose owner is gone, and only a request enters a record |
| `DeathRuns.AttachedRecords` | modules/anbox/binder/binder.c:2571-2625 | a record on a reference is unqueued while its node lives, once queued it is of type DEAD_BINDER (the check at 2622), and no other reference has it |
| `DeathRuns.DetachedRecords` | modules/anbox/binder/binder.c:2607-2625 | a record that left its reference is in exactly one list, once, of one of the two clearing types, and not freed |
| `DeathRuns.FreedIsGone` | modules/anbox/binder/binder.c:1184-1191 | no reference and no list refers to a freed record; as `DeathRuns.Step` proves that the freed ones only grow, none is freed twice |
| `DeathDriver.Deaths.Request` | modules/anbox/binder/binder.c:2574-2602 | exactly when each of the four answers is given, and the whole new state: one record more, on the reference, queued at once exactly if the node is dead, at the end of the thread's own list if it serves calls and of the process's otherwise |
| `DeathDriver.Deaths.Clear` | modules/anbox/binder/binder.c:2603-2625 | which clears are refused, whether the record is queued, in which list, or only changes its type, and all lists after it |
| `DeathDriver.Deaths.Done` | modules/anbox/binder/binder.c:2627-2663 | a delivered record with the cookie is found if there is one, leaves the delivered ones, and is queued again, in which list, exactly if its reference has let it go |
| `DeathDriver.Deaths.Read` | modules/anbox/binder/binder.c:2892-2926 | the first record of the thread's or the process's list leaves it and is announced; no death before the owner is dead, none twice, and a confirmed clear frees the record; the others go to the head of the delivered ones |
| `DeathDriver.Deaths.ReleaseWork` | modules/anbox/binder/binder.c:3026-3072 | the list is emptied: records that left their reference are freed, the others only leave the list, and exactly the records that go join the freed ones |
| `DeathDriver.Deaths.FreeThread` | modules/anbox/binder/binder.c:3111-3150 | the list of an exiting thread goes, with exactly the records in it that left their reference |
| `DeathDriver.Deaths.DeleteRef` | modules/anbox/binder/binder.c:1171-1194 | the record goes with its reference |
| `DeathDriver.Deaths.ReleaseNode` | modules/anbox/binder/binder.c:3612-3654 | every record on a reference to the node was in no list (the check at 3646) and is queued for its process; no other record changes |
| `DeathDriver.Deaths.Exit` | modules/anbox/binder/binder.c:3656-3714 | an exit leaves no reference, list or node of the process; it frees exactly the records on its references and the detached ones in its lists; every other reference keeps its record, which changes only to carry the news that a node of the process has died |
| `DeathDriver.Deaths.ExitLists` | modules/anbox/binder/binder.c:3705-3709 | with the references gone every record in the process's lists is freed, and no other |
| `FixupScan.Scan` | modules/anbox/binder/binder.c:2081-2224 | a transaction is accepted if and only if the extra area is aligned, every entry obeys the rules and nothing outside fails; otherwise the walk stops at the first that does not; accepted objects are aligned, take 24, 24, 40 or 32 bytes by their type, end inside the data and start behind the one before |
| `FixupScan.ValidateFixup` | modules/anbox/binder/binder.c:1442-1466 | the climb ends, and allows a write exactly if the buffer is the last one fixed or above it and all writes into it end before the offset |
| `FixupScan.FixupParent` | modules/anbox/binder/binder.c:1824-1869 | a pointer is accepted exactly if its parent is an earlier buffer and the write is allowed and fits |
| `FixupScan.FixupArray` | modules/anbox/binder/binder.c:2154-2186 | the same for an array of descriptors |
| `FixupScan.ArrayFitsExact` | modules/anbox/binder/binder.c:1779-1805 | the wrap-around tests accept exactly the arrays that fit |
| `FixupScan.ObjectSizeExact` | modules/anbox/binder/binder.c:1335-1366 | the wrap-around tests accept exactly the aligned objects of 24, 24, 40 or 32 bytes that lie inside the data |
| `FixupScan.SpansExact` | modules/anbox/binder/binder.c:2081-2110 | behind good entries the next is well placed exactly if its type is known, it is aligned and has all bytes of its type |
| `FixupRules.PathEnds` | modules/anbox/binder/binder.c:1442-1466 | for every buffer on the way up, the offset the climb computes is the end of the highest write into it |
| `FixupRules.LastFixedIs` | modules/anbox/binder/binder.c:2181-2219 | the buffer last fixed is the one that the last pointer or array entry describes or writes into |
| `FixupRules.CopiedNext` | modules/anbox/binder/binder.c:2207-2207 | a copy takes its length rounded up to the next multiple of 8, and other entries take nothing |
| `FixupScan.WritesInOrder` | modules/anbox/binder/binder.c:1442-1466 | every write lies inside its buffer, and writes into one buffer go upwards |
| `FixupScan.CopiesApart` | modules/anbox/binder/binder.c:2099-2101 | copies are aligned, follow each other and stay in the extra area |
| `FixupScan.WritesDisjoint` | modules/anbox/binder/binder.c:1865-1867 | no two writes touch the same byte and none leaves the extra area |
| `FixupScan.ObjectsApart` | modules/anbox/binder/binder.c:2103-2118 | accepted objects do not overlap and have increasing offsets |
| `AshmemRuns.Run` | modules/anbox/ashmem/ashmem.c:598-716 | after any run the lists are descending and disjoint and the shared list and count are exact, each state follows from the one before as the request says, and a discarded page goes unmarked exactly at a request that forgets it; if memory does not run out, no discarded page is unmarked and each area's list stands for the set of pages that plain union and difference compute |
| `AshmemRuns.Step` | modules/anbox/ashmem/ashmem.c:598-716 | one request, with memory or without: what it does to the pages of its area, that no other area changes, and exactly when it forgets a discarded page |
| `AshmemRuns.FirstLoss` | modules/anbox/ashmem/ashmem.c:598-716 | in every run all discarded pages are marked up to a state if and only if no request before it forgets one |
| `AshmemRuns.CountExact` | modules/anbox/ashmem/ashmem.c:136-153 | the shared list holds exactly the unpurged ranges, and the count is the number of pages in the set they cover |
| `AshmemDriver.DiscardedCount` | modules/anbox/ashmem/ashmem.c:105-106 | the sizes of ranges of the shared list add up to the number of their pages, as no two share one |
| `AshmemDriver.Ashmem.Pin` | modules/anbox/ashmem/ashmem.c:598-656 | pages leave exactly as in set difference and all others keep their marks; without memory the upper part of a range that was to be cut leaves too, and exactly when that forgets a discarded page; the answer is whether a purged page was asked for, and with none reported none was discarded |
| `AshmemDriver.Ashmem.PinMiddle` | modules/anbox/ashmem/ashmem.c:644-651 | cutting a range in two |
| `AshmemDriver.Ashmem.Unpin` | modules/anbox/ashmem/ashmem.c:665-692 | it fails exactly without memory and unless one range holds all that is asked for; pages join exactly as in set union, and a mark spreads exactly over what was joined; without memory exactly the joined pages are pinned, and exactly when that forgets a discarded page |
| `AshmemDriver.Ashmem.UnpinWalk` | modules/anbox/ashmem/ashmem.c:670-689 | the walk with its restarts ends, early exactly if one range holds all that is asked for, which is never after a deletion |
| `AshmemRuns.MarkForgotten` | modules/anbox/ashmem/ashmem.c:665-692 | a run without memory after which a discarded page is not marked |
| `AshmemRuns.TailForgotten` | modules/anbox/ashmem/ashmem.c:644-651 | a run in which pinning without memory leaves a discarded page unmarked |
| `AshmemDriver.Ashmem.GetPinStatus` | modules/anbox/ashmem/ashmem.c:700-716 | the answer is whether the interval meets the set of unpinned pages |
| `AshmemDriver.Ashmem.ShrinkScan` | modules/anbox/ashmem/ashmem.c:453-480 | where it may not wait it answers -1 and changes nothing; otherwise exactly the first `nr` ranges of the shared list, or all for 0, are purged, the answer is the number of their pages and what the count loses, and nothing is pinned or unpinned |
| `AshmemDriver.Ashmem.Release` | modules/anbox/ashmem/ashmem.c:265-280 | exactly the area's ranges go |
| `AshmemDriver.Ashmem.RangeAlloc` | modules/anbox/ashmem/ashmem.c:167-188 | the lists and count after a new range |
| `AshmemDriver.Ashmem.RangeDel` | modules/anbox/ashmem/ashmem.c:194-200 | the lists and count without the range |
| `AshmemDriver.Ashmem.RangeShrink` | modules/anbox/ashmem/ashmem.c:214-224 | the range and count after shrinking |
| `AshmemDriver.MeetsIsIntersection` | modules/anbox/ashmem/ashmem.c:117-122 | the three-way test is intersection |
| `AshmemDriver.Ashmem.GrownMore` | modules/anbox/ashmem/ashmem.c:683-688 | joining one more range keeps the hull exact |
| `AshmemSteps.AddKeeps` | modules/anbox/ashmem/ashmem.c:167-188 | the invariant of all areas after a new range |
| `AshmemSteps.DelKeeps` | modules/anbox/ashmem/ashmem.c:194-200 | the invariant after a deletion |
| `AshmemSteps.ShrinkKeeps` | modules/anbox/ashmem/ashmem.c:214-224 | the invariant after shrinking |
| `AshmemSteps.PurgeKeeps` | modules/anbox/ashmem/ashmem.c:464-477 | the invariant after a purge |
| `ByteStreams.Run` | src/anbox/graphics/buffered_io_stream.cpp:58-106 | for every interleaving, bytes read, the rest of the current buffer and the queue are all accepted bytes in order, and a thread sleeps unnotified only while it cannot go on |
| `ByteStreams.ByteStream.Read` | src/anbox/graphics/buffered_io_stream.cpp:58-95 | what is returned comes next in the stream, less than wanted only if there is no more; a read fails exactly on a stopped and drained stream and sleeps exactly on a drained one |
| `ByteStreams.ByteStream.Collect` | src/anbox/graphics/buffered_io_stream.cpp:63-90 | the loop ends with all that was wanted, all there is, or asleep with nothing |
| `ByteStreams.ByteStream.Post` | src/anbox/graphics/buffered_io_stream.cpp:103-106 | a post is refused exactly when the stream is stopped and sleeps exactly when the queue is full |
| `ByteStreams.ByteStream.ForceStop` | src/anbox/graphics/buffered_io_stream.cpp:97-101 | nothing unread is lost and nobody is left asleep |
| `BufferQueues.BufferQueue.TryPush` | src/anbox/graphics/buffer_queue.cpp:22-38 | the ring appends, refuses when full or closed, and a sleeping reader is notified |
| `BufferQueues.BufferQueue.Push` | src/anbox/graphics/buffer_queue.cpp:40-48 | one pass of the waiting loop |
| `BufferQueues.BufferQueue.TryPop` | src/anbox/graphics/buffer_queue.cpp:50-64 | the oldest buffer leaves, and a sleeping poster is notified |
| `BufferQueues.BufferQueue.Pop` | src/anbox/graphics/buffer_queue.cpp:66-79 | one pass of the waiting loop |
| `BufferQueues.BufferQueue.Close` | src/anbox/graphics/buffer_queue.cpp:81-91 | the contents stay and every sleeper is notified |
| `BufferQueues.RingPush` | src/anbox/graphics/buffer_queue.cpp:29-33 | writing after the last cell, with wrap-around, appends |
| `IpConfigs.IpConfigBuilder.Write` | src/anbox/android/ip_config_builder.cpp:57-87 | writing behind whatever the writer holds succeeds exactly when there is room, the reported length is exact, and no byte outside the room changes in any case |
| `IpConfigs.IpConfigBuilder.Fields` | src/anbox/android/ip_config_builder.cpp:63-85 | the keys, values and fixed numbers in the order of the file, as the encoding defines it |
| `IpConfigDecoding.RoundTrip` | src/anbox/android/ip_config_builder.cpp:57-87 | a configuration is read back unchanged if and only if its strings are short |
| `IpConfigDecoding.DecodeOnly` | src/anbox/android/ip_config_builder.cpp:57-87 | only encodings of short configurations are read |
| `IpConfigDecoding.Injective` | src/anbox/android/ip_config_builder.cpp:57-87 | different short configurations have different encodings |
| `IpConfigDecoding.LongCollision` | src/anbox/common/binary_writer.cpp:97-100 | a name server of a multiple of 65536 zero bytes shares its encoding with many empty ones, in a different configuration |
| `IpConfigDecoding.ReadServersBytes` | src/anbox/android/ip_config_builder.cpp:77-79 | the list of name servers, which has no count and no end, is found by what must follow it |
| `IpConfigDecoding.ReadBytes` | src/anbox/common/binary_writer.cpp:46-100 | a field is read back if and only if it fits its size |
| `BinaryWriters.BinaryWriter.WriteBytes` | src/anbox/common/binary_writer.cpp:85-91 | the bytes are written exactly if they fit before the end |
| `BinaryWriters.BinaryWriter.WriteUint16` | src/anbox/common/binary_writer.cpp:46-64 | two bytes in the chosen order |
| `BinaryWriters.BinaryWriter.WriteUint32` | src/anbox/common/binary_writer.cpp:66-83 | four bytes in the chosen order |
| `BinaryWriters.Uint16Value` | src/anbox/common/binary_writer.cpp:46-64 | the bytes are the digits of the low 16 bits, highest first or last by the chosen order |
| `BinaryWriters.Uint32Value` | src/anbox/common/binary_writer.cpp:66-83 | and so for 32 bits |
| `BinaryWriters.BinaryWriter.WriteStringWithSize` | src/anbox/common/binary_writer.cpp:93-100 | the string after the low 16 bits of its length, or a beginning of that |
| `BinaryWriters.BinaryWriter.BytesWritten` | src/anbox/common/binary_writer.cpp:102-104 | the length of all that was written |
| `AtParsers.ProcessChunks` | src/anbox/qemu/gsm_message_processor.cpp:61-66 | however the stream is cut, the same handlers are called with the same commands and the same bytes are left |
| `AtParsers.AtParser.ProcessData` | src/anbox/qemu/at_parser.cpp:31-47 | exactly the commands that a terminator closes are processed, and exactly the bytes after the last terminator are left |
| `AtParsers.GsmMessageProcessor.ProcessData` | src/anbox/qemu/gsm_message_processor.cpp:61-66 | a chunk is processed behind what was left |
| `AtParsers.SplitAppend` | src/anbox/qemu/at_parser.cpp:31-47 | later bytes are split as if they followed the leftover |
| `AtParsers.SplitExact` | src/anbox/qemu/at_parser.cpp:31-47 | commands, terminators and leftover are together the data, and every terminator is a line feed or a carriage return |
| `AtParsers.SplitClean` | src/anbox/qemu/at_parser.cpp:35-41 | no command and no leftover contains a terminator |
| `AtParsers.AtParser.ProcessCommand` | src/anbox/qemu/at_parser.cpp:49-74 | the handler found, if any, is called with the command behind its prefix |
| `AtParsers.CallOfIsRight` | src/anbox/qemu/at_parser.cpp:49-74 | the handler called is the one with the shortest key that begins the command, none only if no key does, and no other answer would be right |
| `AtParsers.LookupShortest` | src/anbox/qemu/at_parser.cpp:60-66 | first in the order of the keys means shortest |
| `AtParsers.AtParser.RegisterCommand` | src/anbox/qemu/at_parser.cpp:26-29 | a new key is added in order, a known one keeps its handler |

## Left out

- Red-black rebalancing, user-space copies, page mapping calls, file descriptor tables, priorities, wait queues of the drivers, statistics, debugfs and tracing: foreign or diagnostic; the trees are plain search trees and foreign failures are parameters.
- CallDriver.Driver.Send: after a call to oneself the state is given but not the invariant, which such a call breaks (see Findings); runs leave such calls out.
- CallDriver.Driver.Deliver: any queued call may be taken, not only the first of its list; the real order is one of those the theorem covers.
- OneWayDriver.OneWay.Exit: the releases of nodes, lists and buffers of an exiting process are one step, after its threads.
- OneWayRuns.Run: claims order and safety only; delivery across a thread exit is false of the code, as `OneWayRuns.Step` shows.
- NodeDriver.Nodes.RefCommand: assumes memory for the implicit reference on descriptor 0, which the source uses unchecked.
- NodeDriver.Nodes.ReadWork: faults while writing a notice to user memory are not modelled; the pointer and the cookie in a notice are those of the node.
- NodeDriver.PickDesc: descriptors are unbounded; the 32-bit overflow is not modelled.
- Work of different kinds shares the lists of the source; each component here keeps its own entries of them, in order.
- DeathDriver.Deaths.ReleaseNode: a node without references stays in the table as a dead one instead of being freed.
- AshmemDriver.Ashmem.PinMiddle: the range is shrunk before the new one is added, not after; the lists and counts are the same.
- AshmemDriver.Ashmem.ShrinkScan: the result of punching the hole is ignored, as in the source; every purged page counts as discarded.
- The ashmem ioctl front end, mmap, names and protection masks: an offset at the end of the area with length 0 gives an empty interval there, so the requests here require a first page that is not after the last.
- FixupScan.Scan: objects are given as decoded values at their offsets; translating handles and descriptors is in the model of nodes or a parameter.
- IpConfigs.IpConfigBuilder.Write: the straight sequence of writes is a loop over the row of fields in the same order.
- AtParsers.AtParser.RegisterCommand: handlers are names; what they reply, and an empty handler object, are not modelled.
- BufferQueues.BufferQueue.Push: one poster and one reader; with more posters the notification rule is not claimed to suffice.
- The output side of the stream, whose queue is closed under a different lock from its users, message_channel, and the qemud, camera and adb processors.
- The command line, D-Bus, containers, sockets, RPC, graphics, audio, input and logging.
