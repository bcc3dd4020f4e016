# C4 kernel: a verified model

C4 is a small x86 microkernel. This project models its data structures and protocols in Dafny and
proves what they keep over whole runs:

- the **Andersson tree** behind the scheduler, with its non-standard removal repair, as a structure of
  cells with parent and child pointers that refines a stably sorted sequence;
- the **scheduler step** on two such trees: conservation of threads, the wake-up loop, the choice of the
  next thread;
- **synchronous rendezvous** between threads and the bounded **asynchronous queue**, as step machines, and
  the doubly linked queue under them;
- the **slab allocator** on the **page region** on the **word-packed bitmap**;
- **capability tables**, lookup through possibly cyclic spaces, and the capability system calls;
- the **address map** and the physical **frames**.

Code that works in place is modelled by classes whose methods change fields and arrays step by step. Node
memory is a map from addresses to cells: following a pointer that leads nowhere, or one to freed memory,
is a proof obligation and never happens. Each method is tied to a function on values, and the properties
are proved of those.

`Inside(z)` in `Pointers` is always true. Predicates that begin with it mean what follows it; a proof
looks into them only where it says so.

| module | content |
|---|---|
| `Pointers`, `Powers` | addresses, sequences without duplicates, powers of two |
| `AaShape`, `AaOrder` | Andersson trees as values, sorted sequences, stable insertion |
| `AndTree`, `AndTreeSearch`, `ThreadTree` | the tree in memory, its searches, its use as a queue |
| `SchedSpec`, `SchedLaws`, `Scheduler` | the scheduler step as a relation, its laws, and in place |
| `Chains`, `KQueue` | doubly linked lists, the kernel's queue |
| `IpcSync`, `IpcSystem`, `IpcAsync` | the rendezvous protocol, its code on linked queues, and the asynchronous queue |
| `Bitmap`, `Region`, `Slab`, `SlabCache` | the allocators |
| `Capability`, `CapCalls`, `CapExact` | tables and lookup, system calls as steps, exactly when they succeed |
| `CapMemory`, `CapSystem` | tables as entries by byte address, and the code on them |
| `AddrMap`, `AddrSpace` | the sorted map, spaces and frames |

Where the code departs from the obvious claim, the project proves exactly when the claim holds:

- a switch loses a thread exactly if the current thread is asleep and expired while still flagged as
  running, and comes first among the run tree and the expired (`LosesExactly`, with an input in
  `SleeperLost`);
- stopping a thread that is queued breaks the scheduler's invariant, and continuing it queues it twice
  (`StopExactly`, `StopContinueDuplicates`); `ExclusiveStep` has the exact condition for each operation;
- the code queues the preempted thread before its runtime is brought up to date, so that a switch leaves a
  sorted run tree sorted exactly if the new runtime fits the place that the old one gave it
  (`SortedExactly`, with an input in `SwitchUnsorts`); order of the run tree is therefore a hypothesis of a
  step and not an invariant;
- a message that the kernel intercepts breaks the rendezvous invariant exactly if a receiver was waiting
  (`InterceptExactly`);
- the tree's own check accepts some trees that are not balanced (`CheckIncomplete`), and `CheckExact` says
  what it leaves out;
- the objects of a slab page lie inside it exactly for sizes up to 128 (`SizesThatFit`);
- the address of a slot that holds a capability space names the first entry of that space's own table, so
  that replacing or removing "the space" writes that entry instead (`SpaceSlots`, `RemovingSpace`); the
  self entries survive an operation exactly if it does not do that (`SelfStep`, `SelfCall`);
- creating a space without memory for it reports success and installs a space at NULL with all
  permissions; every pointer still leads to a space exactly if no slot was reserved or the space was made
  (`WholeCreate`, with an input in `NullInstalled`);
- a receiver that an intercepted message takes out of the queue never runs again (`StrandedForever`);
- a frame's count of mappings stays right exactly if no full map is inserted into, the count does not wrap
  and no map with entries is cloned (`StepInv` in `AddrSpace`);
- a mapping that reaches the end of the 32-bit address space is never found again (`ContainsExactly`).

## Model

| member | source | states |
|---|---|---|
| AaShape.MendUpAA | src/klib/andtree.c:325-334 | skew and split on every level from a grown subtree up to the root restore the whole Andersson invariant, whatever the path |
| AaShape.FixUpAA | src/klib/andtree.c:362-387 | lower, skew, split, split-left and skew on every level from a shrunk subtree up to the root restore the whole invariant |
| AaShape.FixupLeft | src/klib/andtree.c:363-386 | one level of the removal repair, after the left subtree has lost a level |
| AaShape.FixupRight | src/klib/andtree.c:363-386 | one level of the removal repair, after the right subtree has lost a level |
| AaShape.MendLeft | src/klib/andtree.c:242-273 | one level of the insertion repair, after the left subtree has grown |
| AaShape.MendRight | src/klib/andtree.c:242-273 | one level of the insertion repair, after the right subtree has grown |
| AaShape.MendUpOrder | src/klib/andtree.c:325-334 | the insertion repair keeps the in-order sequences of elements and of nodes |
| AaShape.FixUpOrder | src/klib/andtree.c:362-387 | the removal repair keeps the in-order sequences of elements and of nodes |
| AaShape.Removed | src/klib/andtree.c:336-388 | removing a node that takes the data of its in-order neighbour leaves a valid tree with exactly that element gone |
| AaShape.RemovedLeaf | src/klib/andtree.c:336-388 | removing a leaf does the same |
| AaOrder.StableInsertSorted | src/klib/andtree.c:302-323 | the sequence that insertion refines stays sorted, with the new element behind all keys no larger and before all larger |
| AaOrder.DescendOrder | src/klib/andtree.c:302-323 | each step of the descent keeps the place right for the new key, for keys whose difference fits in 64 bits |
| AaOrder.InsertAllHead | src/klib/andtree.c:155-157 | after any insertions the first of the sequence is the earliest inserted among the least keys |
| AndTree.ATree.Rotate | src/klib/andtree.c:216-235 | a rotation in memory: links consistent in both directions, the shape rotated, nothing else changed |
| AndTree.ATree.SkewAt | src/klib/andtree.c:242-256 | skew in memory is skew on the shape |
| AndTree.ATree.SplitAt | src/klib/andtree.c:258-273 | split in memory is split on the shape |
| AndTree.ATree.BinInsert | src/klib/andtree.c:302-323 | the node becomes a leaf at a place that is right for its key |
| AndTree.ATree.InsertRepair | src/klib/andtree.c:325-334 | the upward walk in memory is the repair on shapes |
| AndTree.ATree.Insert | src/klib/andtree.c:404-422 | links, balance and node count are kept; the element is inserted, after all with keys no larger if the tree is sorted |
| AndTree.ATree.FindEnd | src/klib/andtree.c:42-60 | the first or last node of a subtree, null exactly if it is empty |
| AndTree.ATree.RemoveNode | src/klib/andtree.c:275-290 | a node without a left child is spliced out, freed and counted off |
| AndTree.ATree.FixupAt | src/klib/andtree.c:363-386 | the body of the removal walk in memory is the repair on shapes |
| AndTree.ATree.FixupWalk | src/klib/andtree.c:362-387 | so is the whole walk |
| AndTree.ATree.TakeOut | src/klib/andtree.c:336-360 | after the data has moved and the leaf is freed, the walk will give a valid tree without that element |
| AndTree.ATree.Remove | src/klib/andtree.c:336-388 | links, balance and node count are kept; exactly the node's position disappears from the sequence of elements; the node freed is the one before if there is a left child, else the one behind if there is a right child, else the node itself, and the other nodes keep their order |
| AndTreeSearch.MinSize | src/klib/andtree.c:515-562 | a valid tree of level k has at least 2^k - 1 nodes |
| AndTreeSearch.MaxHeight | src/klib/andtree.c:515-562 | a valid tree of level k has no path longer than 2k |
| AndTreeSearch.DescentBound | src/klib/andtree.c:42-60 | every descent in a valid tree of n nodes passes at most 2 log2(n + 1) nodes |
| AndTreeSearch.FindKey | src/klib/andtree.c:62-76 | a node with the key, null exactly if there is none, within 2 log2(n + 1) steps |
| AndTreeSearch.FindAtLeast | src/klib/andtree.c:125-153 | a node with a least key not below the argument, null exactly if there is none |
| AndTreeSearch.FindDupeData | src/klib/andtree.c:79-107 | an element is found by identity among equal keys on both sides |
| AndTreeSearch.FindData | src/klib/andtree.c:109-123 | a node holding the element, null exactly if it is not in the tree |
| AndTreeSearch.Neighbour | src/klib/andtree.c:163-202 | the next or previous node in order, null at the ends |
| AndTreeSearch.Enumerate | src/klib/andtree.c:155-182 | repeated next from start visits the in-order sequence exactly |
| AndTreeSearch.CheckExact | src/klib/andtree.c:515-558 | a tree is valid exactly if the check's conditions hold and those it leaves out |
| AndTreeSearch.CheckIncomplete | src/klib/andtree.c:515-558 | the check accepts a tree that is not valid |
| AndTreeSearch.Check | src/klib/andtree.c:515-562 | the check's answer; every valid tree passes |
| AndTreeSearch.CountNodes | src/klib/andtree.c:292-300 | the number of reachable nodes, equal to the counter of a valid tree |
| AndTreeSearch.RemoveData | src/klib/andtree.c:455-465 | removes one occurrence of the element and no other, or nothing |
| ThreadTree.Start | src/klib/andtree.c:155-157 | the first node in order, null exactly if the tree is empty |
| ThreadTree.Queue.Insert | src/klib/andtree.c:404-422 | the tree as a queue: the element is inserted stably if the queue is sorted |
| ThreadTree.Queue.Pop | src/klib/andtree.c:424-441 | the first element goes, the others keep their order |
| Scheduler.Sched.RequeueCurrent | src/scheduler.c:64-72 | a current thread that is still to run is put into the run tree with its flag cleared; otherwise nothing changes |
| Scheduler.Sched.WakeSleepers | src/scheduler.c:76-95 | the woken are a front part of the sleep tree with expired targets; the first that stays is later than the last clock reading |
| Scheduler.Sched.PickNext | src/scheduler.c:97-115 | the first of the run tree, or the idle thread |
| Scheduler.Sched.JumpTo | src/scheduler.c:124-165 | the next thread is current, flagged and has started at the second reading; the one that leaves has the time since its start added and its flag cleared; no other thread's times change |
| Scheduler.Sched.SwitchThread | src/scheduler.c:59-119 | one step of the scheduler as a relation of the states before and after |
| Scheduler.Sched.ThreadSleep | src/scheduler.c:267-282 | nothing for a sleep of 0; else the current thread is queued by its wake-up time, and the switch follows |
| Scheduler.Sched.AddThread | src/scheduler.c:178-187 | a runnable thread is queued; each thread is queued once afterwards exactly if it was not queued or current |
| Scheduler.Sched.ThreadContinue | src/scheduler.c:219-232 | only a stopped thread is continued and queued; each thread is in one place afterwards exactly if it is not the current one |
| Scheduler.Sched.ThreadStop | src/scheduler.c:234-238 | a running thread is marked stopped and left where it is queued; nothing else changes |
| SchedLaws.ConservedExactly | src/scheduler.c:59-119 | the runnable current thread and both trees before a step are the chosen thread and both trees after it, exactly if the state before and the clock do not say that the current thread is dropped |
| SchedLaws.ConservedAwake | src/scheduler.c:59-119 | the same equality whatever the order of the run tree, if the current thread is not asleep and expired while flagged as running |
| SchedLaws.LosesExactly | src/scheduler.c:103-114 | a step loses a thread exactly if the current thread is asleep, expired, still flagged as running and first of the run tree and the expired; it is then in neither tree and does not run |
| SchedLaws.SleeperLost | src/scheduler.c:267-282 | a concrete thread that goes to sleep and is lost by the switch that follows |
| SchedLaws.WokenAreExpired | src/scheduler.c:76-95 | a switch wakes exactly the front part of the sleep tree that has expired at the last reading |
| SchedSpec.PickedIsFirst | src/scheduler.c:97-115 | with a sorted run tree the chosen thread has least virtual runtime, first come first among equals |
| SchedSpec.AllExpiredWoken | src/scheduler.c:76-95 | every thread expired at the last reading is woken |
| SchedSpec.SwitchedExclusive | src/scheduler.c:59-119 | every thread stays in one place only, and queued threads runnable and off the processor |
| SchedSpec.AsleepGood | src/scheduler.c:267-282 | the sleep tree stays sorted, with the new sleeper behind all that wake no later |
| SchedSpec.AsleepExclusive | src/scheduler.c:267-282 | going to sleep keeps every thread in one place only |
| SchedSpec.AddExactly | src/scheduler.c:178-187 | exactly when queueing a thread keeps every thread in one place only |
| SchedSpec.StopExactly | src/scheduler.c:234-238 | stopping keeps the invariant exactly if the thread is not queued |
| SchedSpec.StopContinueDuplicates | src/scheduler.c:219-238 | a queued thread that is stopped and continued is queued twice |
| SchedLaws.SortedExactly | src/scheduler.c:64-150 | a switch leaves a sorted run tree sorted exactly if the current thread's new key neither passes the key behind the place its old key gave it nor, after wrapping at 2^64, falls below the key before |
| SchedLaws.GrownExactly | src/scheduler.c:64-150 | where the runtime does not wrap, exactly if the new key does not pass the key behind |
| SchedLaws.SwitchUnsorts | src/scheduler.c:64-150 | a concrete state from which a switch leaves the run tree unsorted |
| SchedLaws.AfterSwitched | src/scheduler.c:59-119 | from a sorted run tree, for every reading of the clock, the step goes to the state that the trees and the clock determine |
| SchedLaws.ContinueExactly | src/scheduler.c:219-232 | continuing a stopped thread keeps every thread in one place exactly if it is not the current one |
| SchedLaws.ExclusiveStep | src/scheduler.c:59-282 | each operation keeps every thread in one place, runnable and off the processor if queued, exactly if it is called properly |
| SchedLaws.RunExclusive | src/scheduler.c:59-282 | so does every run of switches, sleeps, additions, continuations and stops, in every state |
| SchedLaws.SwitchTimes | src/scheduler.c:124-165 | a switch starts the next thread's time at the reading and adds the leaving thread's, and changes no other times |
| SchedLaws.GainedExactly | src/scheduler.c:150-158 | a thread that one switch brings onto the processor, and that stays there over any run until another takes it off, gains exactly the time between, modulo 2^64 |
| SchedLaws.PreemptedStays | src/scheduler.c:64-72 | a current thread that is still to run is queued or runs on |
| SchedLaws.VRuntimeIs | src/scheduler.c:24-34 | the run tree's key is the runtime divided by the priority, rounded down |
| KQueue.Queue.PushFront | src/klib/queue.c:43-56 | the list with the element in front |
| KQueue.Queue.PushBack | src/klib/queue.c:58-71 | the list with the element behind |
| KQueue.Queue.PopFront | src/klib/queue.c:73-95 | the first element, nothing exactly if the queue is empty; the rest keeps its order |
| KQueue.Queue.PopBack | src/klib/queue.c:97-119 | the last element, nothing exactly if the queue is empty; the rest keeps its order |
| Chains.BypassChain | src/klib/queue.c:73-119 | linking a node's neighbours to each other leaves a list without it, linked in both directions |
| IpcSystem.Ipc.MessageTrySend | src/message.c:78-109 | on linked queues: true exactly if a receiver was waiting; the first leaves the queue with the message, or without one if the kernel intercepts it, and no other thread changes |
| IpcSystem.Ipc.MessageSend | src/message.c:111-133 | on linked queues: without a waiting receiver the whole message stays with the sender, who waits behind the other senders, and no other thread changes; else it is handed over and the sender goes on, stopped if it has faulted; the protocol's invariant is kept exactly if the message is forwarded or nobody was waiting |
| IpcSystem.Ipc.MessageReceive | src/message.c:35-75 | on linked queues: returns the pending message, or the first blocked sender's, who runs again, or the thread waits behind the others; the protocol's invariant is kept by the call and by its retry |
| IpcSystem.Ipc.CreateEndpoint | src/message.c:188-204 | a new endpoint with two empty queues, apart from all others |
| IpcSync.StepInv | src/message.c:35-133 | every step with forwarded messages keeps the protocol's invariant |
| IpcSync.RunFromFresh | src/message.c:35-133 | in any run no endpoint has both blocked senders and receivers, and messages handed over and messages of blocked senders are the messages sent, in order; none is overwritten before its receiver resumes |
| IpcSync.StepSends | src/message.c:78-133 | a step adds to what was sent on an endpoint exactly the message that it was given, with the sender filled in only where a receiver waited |
| IpcSync.RunDelivers | src/message.c:35-133 | in any run the messages handed to receivers, then those of the blocked senders, are kind for kind and word for word the messages that the sends in the run were given, in order |
| IpcSync.HandedOnce | src/message.c:35-133 | each step hands over one message to one thread or none |
| IpcSync.InterceptExactly | src/message.c:81-96 | an intercepted message breaks the invariant exactly if a receiver was waiting |
| IpcSync.InterceptStrands | src/message.c:81-96 | an intercepted message leaves the receiver it takes out waiting and in no queue |
| IpcSync.StrandedForever | src/message.c:35-133 | such a thread never receives, runs or is queued again, whatever any thread does |
| IpcAsync.Queue.Insert | src/message.c:149-164 | the list with the message behind |
| IpcAsync.Queue.Remove | src/message.c:166-182 | the first message, nothing exactly if the list is empty |
| IpcAsync.Queue.MessageSendAsync | src/message.c:253-281 | refused exactly if 64 messages wait; else the message is behind the others, and the first blocked receiver, if any, is off its queue and woken |
| IpcAsync.Queue.MessageReceiveAsync | src/message.c:283-314 | returns exactly the first message, if there is one; else blocks behind the other receivers if asked to, else reports that there is none |
| IpcAsync.StepInv | src/message.c:253-314 | every step keeps first-in-first-out order, the bound, and that no wake-up is lost |
| IpcAsync.RunFromEmpty | src/message.c:253-314 | in any run messages are taken in the order accepted, at most 64 wait, and while receivers are blocked no more messages wait than receivers have been woken and not yet run |
| IpcAsync.RunReturns | src/message.c:253-314 | in any run the messages that receives returned to their callers, then those in the queue, are the messages of the sends that found room, in order |
| Bitmap.SetBit | include/c4/klib/bitmap.h:22-28 | setting a bit of a word changes that bit and no other |
| Bitmap.UnsetBit | include/c4/klib/bitmap.h:30-36 | clearing a bit of a word changes that bit and no other |
| Bitmap.BitmapSet | include/c4/klib/bitmap.h:22-28 | the bit is set and every other bit of every word unchanged |
| Bitmap.BitmapUnset | include/c4/klib/bitmap.h:30-36 | the bit is clear and every other bit of every word unchanged |
| Bitmap.FirstFree | include/c4/klib/bitmap.h:38-46 | the lowest clear bit, -1 exactly if there is none |
| Bitmap.FullWord | include/c4/klib/bitmap.h:9-9 | a word is 0xffffffff exactly if all its bits are set |
| Region.Pool.constructor | src/mm/region.c:37-57 | whatever the bitmap held, no page is in use |
| Region.Pool.Alloc | src/mm/region.c:6-23 | the lowest free page, null exactly if none is free; the count of free pages is right |
| Region.Pool.Free | src/mm/region.c:25-35 | exactly the page of the address becomes free; the count stays right exactly if it was in use |
| Slab.DelistedKept | src/mm/slab.c:8-24 | a block taken off its list leaves three lists linked both ways, with right heads and sizes |
| Slab.InsertedKept | src/mm/slab.c:26-40 | so does a block put in front of a list |
| Slab.TakeSlot | src/mm/slab.c:103-113 | a block that is not full has a free slot other than the header, and is then partial or full |
| Slab.GiveSlot | src/mm/slab.c:150-150 | a slot given back leaves the header taken and the block not full |
| Slab.LiveApart | src/mm/slab.c:104-104 | live objects lie in their page behind the header, and no two overlap |
| Slab.SlotFound | src/mm/slab.c:137-139 | an address anywhere in a slot leads back to its block and slot |
| Slab.SlotTaken | src/mm/slab.c:113-113 | setting a bit makes exactly one more object live |
| Slab.SlotGiven | src/mm/slab.c:150-150 | clearing a bit makes exactly that object no longer live |
| Slab.SizesThatFit | src/mm/slab.c:166-183 | the objects of a page lie inside it exactly for sizes up to 128 |
| SlabCache.Cache.constructor | src/mm/slab.c:185-201 | an empty slab, in order exactly for sizes up to 128 |
| SlabCache.Cache.MoveBlock | src/mm/slab.c:42-47 | the block is on the new list, first, and on no other |
| SlabCache.Cache.Alloc | src/mm/slab.c:79-131 | an object not live before, the lowest free slot of the first partial block, else of a free one, else of a new page; the region gains exactly that page, or none; the invariant of lists and words is kept. It faults exactly if no block has room and the region has no page |
| SlabCache.Cache.Free | src/mm/slab.c:133-164 | exactly the object of the address is no longer live; its block leaves, and its page the region, exactly if the object was its last and two other blocks are free; the invariant is kept |
| SlabCache.Cache.DeallocFreeBlock | src/mm/slab.c:71-77 | a third free block goes back to the region, that page and no other, and no object with it |
| SlabCache.AllocAmong | src/mm/slab.c:79-131 | of any number of slabs on one region that share no block, all stay valid and share none, and the others keep their objects |
| SlabCache.FreeAmong | src/mm/slab.c:133-164 | the same when an object is given back |
| SlabCache.SlabsApart | src/mm/slab.c:104-104 | objects of two such slabs do not overlap |
| Capability.LookupComposes | src/capability.c:165-199 | an address that begins with a path to a space names what the rest names there |
| Capability.LookupFinds | src/capability.c:165-199 | what is found is at the end of the path that the address spells |
| Capability.LookupExactly | src/capability.c:165-199 | lookup finds exactly the slot that the address spells a path to, whatever its entry, even one without a type, and nothing exactly if it spells none |
| Capability.AstrayExactly | src/capability.c:182-184 | a lookup goes astray exactly if the address leads through a slot whose space is not one |
| Capability.OpsExactly | src/capability.c:79-147 | replacing, removing and restricting write exactly the named slot, exactly if it may be changed, restricting only to bits that are there |
| Capability.InsertExactly | src/capability.c:69-77 | inserting writes exactly the first slot without a type, exactly if the table's first entry has CAP_MODIFY |
| Capability.ShareExactly | src/capability.c:55-67 | sharing inserts a copy of the named entry, exactly if it has CAP_SHARE |
| Capability.SelfHop | src/capability.c:165-199 | a leading hop through the self entry changes nothing |
| Capability.SpaceSlots | src/capability.c:176-184 | the entry found is a space exactly if it is the first of its table |
| Capability.FrozenForever | src/capability.c:55-161 | a table whose self entry lacks CAP_MODIFY is changed by no run of operations, through any spaces and paths |
| Capability.SelfStep | src/capability.c:69-147 | self entries survive an operation exactly if it spares them |
| Capability.WholeKeepsTo | src/capability.c:152-184 | where every pointer leads to a space, no operation follows one astray |
| Capability.SelfForever | src/capability.c:69-147 | operations that spare the self entries never follow a pointer astray, and all tables keep theirs |
| Capability.RemovingSpace | src/capability.c:103-119 | removing a space by its slot removes the self entry of its table |
| Capability.InsertOk | src/capability.c:213-224 | an insertion never reaches the first slot, and 0 is returned exactly if nothing was inserted |
| Capability.CoversBits | src/capability.c:139-143 | the subset check says that every permission asked for is there |
| CapCalls.NeverAmplified | src/syscall.c:622-763 | over any run of copy, remove, restrict, grant, receive and create, also where creations fail, a bound per object on the permissions of all entries and grants under way is kept; it must allow all permissions for what a creation returned, NULL if it failed |
| CapCalls.StaysConfined | src/syscall.c:670-763 | an object whose entries all lack CAP_SHARE, with no grant under way, reaches no slot that did not have it |
| CapCalls.StepDerived | src/syscall.c:622-763 | every entry after a call comes from one before it: kept with no more permissions, copied with CAP_SHARE, granted, reserved, or naming what a creation returned, NULL if it failed |
| CapCalls.GrantFrom | src/syscall.c:734-763 | a granted capability has no permission that the granter's entry lacks, and that entry has CAP_SHARE |
| CapCalls.FrozenCalls | src/syscall.c:622-763 | no run of system calls changes a frozen table |
| CapCalls.SelfCall | src/syscall.c:622-763 | a call leaves every table its self entry exactly if it does not replace or remove an entry by naming a space |
| CapCalls.WholeCreate | src/syscall.c:622-641 | a creation leaves every pointer leading to a space exactly if no slot was reserved or the space was made |
| CapCalls.WholeCall | src/syscall.c:350-763 | so does a call that spares the self entries, exactly if it is not a creation that fails once a slot is reserved |
| CapCalls.NullInstalled | src/syscall.c:632-638 | a concrete kernel in which a creation fails, reports success and installs a space at NULL, through which a lookup goes astray |
| CapCalls.SelfCalls | src/syscall.c:350-763 | calls that spare the self entries, none a creation that fails once a slot is reserved, never follow a pointer astray, and every table keeps its self entry |
| CapCalls.CreateLands | src/syscall.c:622-641 | what a creation returned, NULL or a space, goes into the slot reserved for it, which was free, and nothing else changes |
| CapExact.CheckExactly | src/syscall.c:153-186 | exactly when a check passes, and which refusal gives which answer, on paths, types and bits |
| CapExact.CopyExactly | src/syscall.c:670-694 | a copy succeeds exactly if the two spaces and the two objects pass their checks |
| CapExact.CopyWrites | src/syscall.c:670-694 | it then writes the source entry into the slot named in the destination space, if that may be changed, and nothing else |
| CapExact.RemoveExactly | src/syscall.c:696-711 | exactly when a removal succeeds, and what is then left |
| CapExact.RestrictExactly | src/syscall.c:713-728 | exactly when a restriction succeeds, and what is then left |
| CapExact.GrantExactly | src/syscall.c:734-763 | exactly when a grant succeeds, and what is then under way |
| CapExact.ReceiveExactly | src/message.c:351-374 | the first slot without a type gets the granted entry, exactly if the receiver's table may be changed and has one |
| CapExact.ReserveExactly | src/syscall.c:190-217 | exactly when a slot is reserved, which, and else which answer |
| CapExact.SetSpaceExactly | src/syscall.c:350-364 | exactly when a thread gets a space |
| CapMemory.MaskPage | src/capability.c:152-157 | clearing the low bits of an address gives the page it is in |
| CapMemory.EntryPage | src/capability.c:149-157 | masking the address of an entry gives its table |
| CapMemory.WriteEntry | src/capability.c:240-240 | writing an entry at its address writes it in its table and changes no other |
| CapSystem.System.Root | src/capability.c:149-161 | from the address of an entry, by masking, the entry that says whether its table may be changed |
| CapSystem.System.TableLookup | src/capability.c:165-199 | lookup by a loop over memory: the address of the slot named, NULL exactly if none is, at most five rounds for a 32-bit address even through cycles |
| CapSystem.System.TableInsert | src/capability.c:213-224 | one address is written, that of the first free slot, or none |
| CapSystem.System.SpaceInsert | src/capability.c:69-77 | only if the table's first entry has CAP_MODIFY, an entry without a type is overwritten |
| CapSystem.System.SpaceReplace | src/capability.c:79-101 | exactly the named address is written, exactly if the masked address leads to a table with CAP_MODIFY; memory still holds the tables |
| CapSystem.System.SpaceRemove | src/capability.c:103-119 | exactly the named address loses its type, under the same condition |
| CapSystem.System.SpaceRestrict | src/capability.c:121-147 | exactly the named address gets permissions it had, under the same condition |
| CapSystem.System.SpaceShare | src/capability.c:55-67 | what changes, if anything, is an address without a type, which gets a copy of an entry with CAP_SHARE |
| CapMemory.NewPage | src/capability.c:19-43 | a page of zeroes with its first entry written is a table whose first entry names its space, and no other table changes |
| CapSystem.System.Check | src/syscall.c:153-186 | passes exactly if the entry that the address names has the type and every permission bit asked for, and returns its address |
| CapSystem.System.CspaceCapCopy | src/syscall.c:670-694 | what changes in memory, if anything, is one entry that may be changed, and it becomes a copy of one with CAP_SHARE; the tables make the copy step |
| CapSystem.System.CspaceCapRemove | src/syscall.c:696-711 | on success one entry that may be changed loses its type, else nothing changes |
| CapSystem.System.CspaceCapRestrict | src/syscall.c:713-728 | on success one entry that may be changed keeps a subset of its permissions, else nothing changes |
| CapSystem.System.CspaceCapGrant | src/syscall.c:734-763 | memory is unchanged; the message's words carry an entry with CAP_SHARE, with a subset of its permissions |
| CapSystem.System.ReceiveGrant | src/message.c:351-374 | the entry that the message's words carry goes into a slot of the receiver's table that had no type, or nowhere |
| CapSystem.System.NewObject | src/syscall.c:190-217 | a slot without a type in the caller's table is reserved, only if the table may be changed; 0 and an error if it may not or is full |
| CapSystem.System.CspaceCreate | src/syscall.c:622-641 | what the creation returned goes into a slot of the caller's table that had no type, as a space with all permissions; every table keeps its self entry, and every pointer leads to a space exactly if the space was made |
| CapSystem.System.ThreadSetCapspace | src/syscall.c:350-364 | the named thread, and no other, gets the named space, if the caller has CAP_MODIFY on the one and CAP_ACCESS on the other |
| AddrMap.PlacedSorted | src/mm/addrspace.c:309-340 | a map is sorted exactly if it is with the entry placed |
| AddrMap.PlacedRemoved | src/mm/addrspace.c:302-340 | removing what was inserted gives back the map |
| AddrMap.ContainsExactly | src/mm/addrspace.c:291-294 | an entry contains its range exactly if the range ends below 4 GiB |
| AddrMap.Map.ShiftUpwards | src/mm/addrspace.c:269-276 | a gap opens at the index, all entries kept in order |
| AddrMap.Map.ShiftDownwards | src/mm/addrspace.c:278-285 | the entry at the index goes, the others keep their order, whatever lies past a full page |
| AddrMap.Map.Insert | src/mm/addrspace.c:309-340 | the entry comes after all with addresses no larger; refused exactly if the map is full |
| AddrMap.Map.Remove | src/mm/addrspace.c:302-307 | exactly the entry goes |
| AddrMap.Map.Lookup | src/mm/addrspace.c:287-300 | the first entry that contains the address, none exactly if none does |
| AddrSpace.StepInv | src/mm/addrspace.c:88-212 | counts of mappings and numbers of entries stay equal exactly if no full map is inserted into, no count wraps, and no map with entries is cloned |
| AddrSpace.UnmapStep | src/mm/addrspace.c:88-101 | unmapping keeps the counts, and the assertion on the count never fails |
| AddrSpace.RunInv | src/mm/addrspace.c:88-212 | over any such run, each frame's count is the number of entries that name it, and maps are sorted |
| AddrSpace.ExtentFixed | src/mm/addrspace.c:187-194 | a frame that an entry names cannot be split, and no step changes its place or length |
| AddrSpace.StepPages | src/mm/addrspace.c:162-212 | a step keeps each page in one frame exactly if it makes no frame or one of pages that are in none |
| AddrSpace.RunPages | src/mm/addrspace.c:162-212 | over any run whose new frames have pages that are in no frame, each page is in exactly one frame, and the pages are those there were at first and those of the frames made |
| AddrSpace.Memory.FrameSplit | src/mm/addrspace.c:187-212 | refused exactly while mapped or if a part would be empty; else each page of the frame is in exactly one of the two parts, and the other frames are unchanged |
| AddrSpace.Memory.SpaceInsertMap | src/mm/addrspace.c:103-125 | the frame is counted once more modulo 2^32, and the entry stands behind all with addresses no larger, unless the map is full; nothing else changes |
| AddrSpace.Memory.SpaceUnmap | src/mm/addrspace.c:88-150 | done exactly if an entry contains the address: the first such goes, its frame is counted off once modulo 2^32, and the others keep order and counts; else nothing changes |
| AddrSpace.MapUnmap | src/mm/addrspace.c:88-150 | mapping a frame and unmapping it by its first address, found nowhere else, gives back the map and the counts |

## Left out

- Mutexes and several processors: each locked section is one step, on one processor. The lock in
  src/syncronization.c does not exclude a thread that locks again, so nothing is claimed of it.
- Scheduler.Sched.AddThread: does not model the interrupt to another processor, nor the yield of a current
  thread of lesser runtime after the thread is queued, because one processor is modelled and a yield is a
  step of its own.
- Scheduler.Sched.JumpTo: does not model the register, stack and page directory switch, because that is
  machine code.
- Thread exit and kill.
- Page tables (map_page, unmap_page, map_phys_page, page directories): what is proved of maps, frames and
  regions is about the kernel's own records.
- Boot code, devices, timers and interrupts: the clock is a parameter that does not go backwards.
- Peeking into a queue and popping the lesser of two queues: peeking returns a node and not its element.
- The capability move call, the counter of a slab's pages, slab constructors and destructors, freeing
  capability spaces, splitting frames by system call, debug printing, string routines, stubbed calls.
- Failure of the slab allocator to give a tree, queue or message node; the address of a new node is a
  parameter, or an address not in use.
- What a slab does after it has written through the null pointer that an exhausted region returns.
- SlabCache.Cache.Free: does not model an address on a block of another slab, because the source demands
  that callers do not pass one; a page that is no block is taken to have no magic number.
- Uninitialised memory: asynchronous queues and capability tables are taken to start out zeroed.
- The sentinel that all trees share is one per tree; its parent field is written and never read.
- Counters of nodes, items and list sizes are unbounded; keys are compared by a 64-bit difference that
  wraps, and sorted order is claimed for keys whose differences fit. A frame's address does not wrap.
- IpcSystem.Ipc.MessageReceive: does not model that the data words of a grant are rewritten for the receiver,
  because the capability goes into its table by CapSystem.System.ReceiveGrant.
- A granted capability under way is delivered to any thread at any time; that it follows its message is
  left to the message protocol. User threads are taken not to forge grant messages.
