# Verification of the mzx core data structures

A Dafny model of five parts of the mzx C++ library, in the form the code has: objects and arrays that methods
change in place, with the properties the library is for proved about them. `dafny verify dfyconfig.toml` checks the
whole project.

**Red-black tree** (`RBTreeShape`, `RBTreeNode`, `RBTree`). The linked nodes of `rbtree.cpp` with parent, colour
and child fields, the insertion and erasure fix-up loops on them, and the ordered container of `rbtree.h`. What the
pointers spell is an abstract tree seen from the place where the code works (a zipper); every rotation, tuck and
recolouring is proved to keep the in-order sequence and to restore the colour rules where it says so. Parent and
colour, packed into one word by the code, are two fields; `RBTreeNode **root` is a value passed in and back.

**Timer manager** (`TimerFlat`, `TimerClient`, `TimerOrder`, `TimerWheel`, `TimerState`, `TimerLine`, `TimerManager`).
The five-level hashed wheel with cascades, handle recycling and callbacks that set and delete timers while a tick
drains. Every function is proved to be a step of a flat machine that knows only a map from timers to due ticks; the
theorems about when callbacks run are theorems about all runs of that machine. A callback is a script of `SetTimer` and
`DelTimer` calls, given by an arbitrary function of the callback and of how many have started, so that it may depend on
anything. `TimerClient` puts the flat machine and the scripts together: an `Update` is a run in which every callback
makes the calls of its script, in order, and nothing else happens. `TimerOrder` adds the line in which timers wait for
their turn, `TimerLine` shows that the lists of the wheel, through all cascades, keep that line.

**Single-producer single-consumer ring** (`SpscQueue`). Each atomic load and store and each beginning and end of a
slot access is a step; the theorems hold for all interleavings of the two threads, and say of whole operations what
they deliver, publish and return. Three slips in `spsc_queue.h` are read as meant: `*data = *tmp` (line 103) as a copy
of the slot, `tmp.T()` (line 85) as construction in place, and the two-argument call of `ReadAvailable` (line 116) with
`max_size_` as its third argument.

**Events** (`Event`) **and the intrusive list** (`List`). Listeners that add and remove listeners and invoke the
event again while it is being invoked, over reference-counted list nodes. The loop with its cursors and counts is
proved to follow a simple machine: a log of registrations, the set of those removed, and a loop over registration
numbers. What the listeners do is a script of any shape and nesting; since a script is finite, exactly the
invocations that finish are described. The circular list itself, with its pointer writes, is in `List`.

**Sorts** (`HeapSort`, `MergeSort`, `QuickSort`, `ShellSort`, `RadixSort`). In place on arrays, for any strict weak
ordering. `Ordering`, `Sequences`, `Arithmetic` and `Options` hold what several of these share.

Checks that abort (`MZX_CHECK`) are preconditions. Integers are unbounded.

## What turned out otherwise than it reads

- `RBTreeNode::Erase` of a node with two children still holds the left child in `tmp` when it descends (lines 195
  and 234-239), so that it ends at the first node of the left subtree instead of the successor.
  `RBTreeNodes.RBTreeNode.TakeOut`: what lines 190-265 leave is a tree of the remaining nodes in order if and only
  if the node has at most one child. The same holds of all of `Erase` (`RBTreeNodes.RBTreeNode.Erase`): when the left
  child has a left child of its own, it ends in a red-black tree in which the first node of the left subtree comes
  after the rest of that subtree; when the left child is itself the first node and nothing is rebalanced, no tree of
  the others in order is left.
  `RBTreeNodes.TwoChildrenFail` does it with a black node and two red children.
- While slot `k & 255` drains, `cur_time_` is already k + 1. A timer put into the wheel from there lands in the
  very slot being drained if and only if its expiry is 255 ticks ahead (`TimerWheel.DrainCollision`). A `SetTimer`
  in a callback keeps the law that every timer is drained at the tick it is due if and only if its delay is not 256
  (`TimerState.SetGoodExactly`); with 256 it is in the slot being drained, 256 ticks early (`TimerState.SetEarly`).
  The end of a callback, whatever calls it made, keeps that law if and only if it does not re-arm with interval 255
  (`TimerState.ReturnGoodExactly`); with 255 the node is back in the slot being drained
  (`TimerState.ReturnIntoDrain`), so that the slot need not get empty. `Update` therefore requires that no timer has
  interval 255 and that callbacks do not set delay 256 or interval 255.
- The period of a periodic timer is its interval plus one (`TimerFlat.PeriodicOnSchedule`).
- A callback that deletes its own timer and sets a new one may get the same node back, and lines 238-250 then re-time
  or drop the new timer. A timer set in a callback is kept as it was set if and only if it does not get the node of
  the timer whose callback it is, or is periodic and would be re-armed for the very same tick
  (`TimerState.SetInCallbackExactly` on the wheel, where the node is the first free one before the call;
  `TimerFlat.SettleKeeps` on the flat machine; `TimerFlat.SetAndLost` is an input at which the new timer is lost).
- Timers for one tick start in the order in which they were set only if they were set at one time, or the first one less
  than 256 ticks ahead (`TimerOrder.SetInTurnOrder`). One set further ahead is in a higher level of the wheel, and one
  set later for the same tick may get to its slot before (`TimerLine.LaterAhead`).
- `RBTree::UpperBound` returns null when no key is less than or equal to the argument (line 242), where the first
  node would be expected: `RBTrees.UpperBoundMisses` with one node and a smaller argument.
- `RadixSort` never uses its `comp` argument.

## Model

| member | source | states |
|---|---|---|
| RBTreeNodes.RBTreeNode.Insert | src/data_structure/rbtree.cpp:93-188 | from any empty place of any linked red-black tree: the pointers spell a red-black tree again, and its in-order sequence is the old one with the node at that place |
| RBTreeNodes.RBTreeNode.InsertFix | src/data_structure/rbtree.cpp:116-186 | one round leaves the conflict gone or two levels higher, with the same black heights everywhere else and the same in-order sequence |
| RBTreeNodes.RBTreeNode.Erase | src/data_structure/rbtree.cpp:190-389 | the pointers spell a tree of the other nodes in their order if and only if the node has at most one child, and then a red-black tree of exactly them; with two children, and the left one not the first of its subtree, they spell a red-black tree of exactly the other nodes in which that first node comes after the rest of the left subtree |
| RBTreeNodes.TwoTakenOut | src/data_structure/rbtree.cpp:224-265 | with two children, and the left one not the first of its subtree: a red-black tree in that wrong order, or one that is one black short exactly where the first node was |
| RBTreeNodes.RBTreeNode.EraseFix | src/data_structure/rbtree.cpp:273-387 | one round, in all its cases: the tree is red-black again, or the subtree that is one black short is one level higher and all else is balanced |
| RBTreeNodes.RBTreeNode.EraseRebalance | src/data_structure/rbtree.cpp:266-388 | the loop ends, with a red-black tree of the same in-order sequence |
| RBTreeNodes.RBTreeNode.TakeOut | src/data_structure/rbtree.cpp:190-265 | before rebalancing, a tree of the remaining nodes in order is there if and only if the node had at most one child; with two, nothing is rebalanced exactly when the first node of the left subtree is red or has a right child |
| RBTreeNodes.TwoChildrenFail | src/data_structure/rbtree.cpp:190-389 | a black node with two red children is erased, and the pointers spell no tree with the other two in order |
| RBTreeNodes.RBTreeNode.UnlinkTwo | src/data_structure/rbtree.cpp:224-265 | with two children: every pointer and colour afterwards, the root and the node to rebalance from; the first node of the left subtree takes the place of the node and gets the root of its own subtree for a left child |
| RBTreeNodes.NoTreeInOrder | src/data_structure/rbtree.cpp:224-265 | once that is so, no tree that the pointers could spell has the remaining nodes in order |
| RBTreeNodes.RBTreeNode.RotateLeft | src/data_structure/rbtree.cpp:278-286 | the pointer and colour writes of a rotation, node by node, with nothing else changed |
| RBTreeNodes.RotatedLeft | src/data_structure/rbtree.cpp:83-91 | those writes turn the tree seen from the upper node into the rotated tree, linked consistently with its surroundings |
| RBTreeNodes.RBTreeNode.ChangeChild | src/data_structure/rbtree.cpp:62-81 | exactly one child pointer of the parent, or the root pointer, is replaced |
| RBTreeNodes.RBTreeNode.RotateSetParents | src/data_structure/rbtree.cpp:83-91 | the new top takes over parent, colour and the pointer to the old one, which goes below it with the given colour |
| RBTreeNodes.RBTreeNode.Next | src/data_structure/rbtree.cpp:38-60 | from any node of any linked tree, the node that follows in order, null after the last |
| RBTreeNodes.RBTreeNode.Prev | src/data_structure/rbtree.cpp:14-36 | the node that precedes in order, null before the first |
| RBTreeShape.RotateKeeps | src/data_structure/rbtree.cpp:83-91 | a rotation keeps the in-order sequence and the nodes |
| RBTreeShape.HeightBound | include/mzx/data_structure/rbtree.h:186-225 | a red-black tree of n nodes is at most 2 log2(n + 1) high |
| RBTrees.RBTree.Find | include/mzx/data_structure/rbtree.h:186-207 | the first node with an equivalent key, null exactly when there is none; the nodes compared are those on the way from the root to an empty child, at most 2 log2(n + 1) of them |
| RBTrees.RBTree.LowerBound | include/mzx/data_structure/rbtree.h:208-225 | the first node in order whose key is not less, null when there is none; the nodes compared are the logarithmically many on one way down |
| RBTrees.RBTree.UpperBound | include/mzx/data_structure/rbtree.h:226-244 | the first node in order whose key is greater, but null also when every key is greater; the nodes compared are those on one way down |
| RBTrees.UpperBoundMisses | include/mzx/data_structure/rbtree.h:226-244 | one node, and an argument that it is greater than: the result is null |
| RBTreeShape.DescentHeight | include/mzx/data_structure/rbtree.h:186-225 | whatever decides between left and right, a way down is no longer than the tree is high |
| RBTrees.RBTree.Begin | include/mzx/data_structure/rbtree.h:152-164 | the first node in order |
| RBTrees.RBTree.RBegin | include/mzx/data_structure/rbtree.h:169-181 | the last node in order |
| RBTrees.RBTree.Walk | src/data_structure/rbtree.cpp:38-60 | Begin followed by Next to null visits exactly the in-order sequence |
| RBTrees.RBTree.Insert | include/mzx/data_structure/rbtree.h:246-273 | false, with no pointer changed, exactly when an equivalent key is present; otherwise the node comes after every key not greater and before every greater one; order, colours, links and count are kept, after comparing with logarithmically many nodes |
| RBTrees.RBTree.InsertEqual | include/mzx/data_structure/rbtree.h:274-293 | the same for any key |
| RBTrees.RBTree.DescentSplits | include/mzx/data_structure/rbtree.h:251-268 | comparing with the last node left to the left is enough to tell whether an equivalent key is anywhere in the tree |
| RBTrees.RBTree.Erase | include/mzx/data_structure/rbtree.h:310-317 | for a node with at most one child: exactly that node leaves the sequence, and its successor is returned |
| TimerWheel.NextVisitFirst | src/timer_manager.cpp:195-235 | `NextVisit` is the first tick from now on that drains or cascades a slot |
| TimerWheel.Placement | src/timer_manager.cpp:115-142 | for every time and expiry time, past and beyond the last level's reach included: the chosen slot is drained exactly when the timer is due, or cascaded later than now and no later than the expiry |
| TimerWheel.DrainCollision | src/timer_manager.cpp:226-235 | an insertion during the drain of a slot goes into that slot if and only if its distance is 255 |
| TimerWheel.CascadeGoesOn | src/timer_manager.cpp:203-214 | index 0 on a level says exactly that the next level's slot starts at this tick too |
| TimerState.SetRefines | src/timer_manager.cpp:144-171 | `SetTimer` is the flat machine's arming with due tick max(c, c + delay - 1) under the next handle of a free node or a new node's first one |
| TimerState.DeleteRefines | src/timer_manager.cpp:185-193 | `DelTimer` of a live handle is the flat machine's deletion and keeps placement, timing and handles |
| TimerState.FireRefines | src/timer_manager.cpp:232-237 | whatever is first in the slot being drained is due at just this tick |
| TimerState.ReturnRefines | src/timer_manager.cpp:238-250 | re-arming or retiring after the callback is the flat machine's, for every interval, also when the callback deleted its timer or reused the node |
| TimerState.ReturnGood | src/timer_manager.cpp:238-250 | unless the interval is 255 it keeps placement, timing and handles |
| TimerState.RecascadeAbs | src/timer_manager.cpp:206-210 | a turn of the cascade loop shortens the slot by one and changes neither the timer nor its due tick |
| TimerState.RecascadeGood | src/timer_manager.cpp:206-210 | and keeps the timing law, with the node in a slot visited later |
| TimerState.AdvanceRefines | src/timer_manager.cpp:226-232 | `++cur_time_` keeps the timing law once the tick's cascades are done, and no timer has been passed over |
| TimerState.TickDone | src/timer_manager.cpp:234-235 | the emptied slot completes the tick |
| TimerState.FindLive | src/timer_manager.cpp:83-98 | a handle is found exactly when its timer is live, whatever the handle, as long as there are fewer than 2^48 nodes; with more, the reserved value is the one exception |
| TimerState.SetThenFound | src/timer_manager.cpp:144-171 | with fewer than 2^48 nodes the handle that `SetTimer` returns is found at once |
| TimerState.ReleaseKills | src/timer_manager.cpp:185-193 | a handle that `DelTimer` finds is neither found nor live afterwards |
| TimerState.AbsWellFormed | src/timer_manager.cpp:115-253 | the flat machine's theorems apply to every state of the manager |
| TimerState.SetIntoDrain | src/timer_manager.cpp:144-171 | `SetTimer` in a callback adds to the slot being drained if and only if its delay is 256 |
| TimerState.SetGoodExactly | src/timer_manager.cpp:144-171 | `SetTimer` in a callback keeps placement and timing if and only if its delay is not 256 |
| TimerState.SetEarly | src/timer_manager.cpp:144-171 | with delay 256 the new timer is in the slot being drained and due 256 ticks after this tick |
| TimerState.ReturnGoodExactly | src/timer_manager.cpp:238-250 | the end of a callback, whatever it called, keeps placement and timing if and only if it does not re-arm with interval 255 |
| TimerState.ReturnIntoDrain | src/timer_manager.cpp:238-250 | it takes the node out of the slot being drained for good, unless it re-arms with interval 255, and then the node is put back there |
| TimerState.RearmIntoDrain | src/timer_manager.cpp:234-246 | a whole drain turn with a callback that makes no calls shortens the slot unless the interval is 255, and then leaves it as long |
| TimerState.SetInCallbackExactly | src/timer_manager.cpp:144-250 | a timer set by the last call of a callback, with any delay and interval, is kept as it was set if and only if it does not get the node of the timer whose callback it is, or is re-armed for the same tick |
| TimerManagers.TimerManager.SetTimer | src/timer_manager.cpp:144-171 | between updates and in callbacks, for any delay: the fields afterwards stand for the flat machine with the timer armed under the handle returned, the node is the first free one or a new one, the handle is found as long as there are fewer than 2^48 nodes, and the timing law is kept if and only if the call does not come from a callback with delay 256 |
| TimerManagers.TimerManager.DelTimer | src/timer_manager.cpp:185-193 | with fewer than 2^48 nodes deletes every live timer, which is not live afterwards and whose node goes to the end of the free list, and changes nothing for any other handle |
| TimerManagers.TimerManager.LeftTime | src/timer_manager.cpp:100-113 | between updates and in callbacks: the ticks until the timer is due, and, with fewer than 2^48 nodes, -1 exactly for handles that are not live |
| TimerManagers.SetAndDelete | src/timer_manager.cpp:83-193 | `SetTimer`, `LeftTime`, `DelTimer`, `LeftTime`: with fewer than 2^48 nodes the timer is there, then it is not |
| TimerManagers.TimerManager.InsertTimerNodeToWheel | src/timer_manager.cpp:115-142 | the node leaves its list and goes to the end of the list of the slot chosen for its expiry time |
| TimerManagers.TimerManager.MoveTimerNodeToFreeList | src/timer_manager.cpp:173-183 | the node leaves its list, is cleared and goes to the end of the free list |
| TimerManagers.TimerManager.Cascade | src/timer_manager.cpp:195-215 | ends, moves every node of the slots that start at this tick, on all levels, to slots visited later, and changes no timer; two timers that stand in one slot for the same tick stand in one slot again, in the same order |
| TimerManagers.TimerManager.CascadeSlot | src/timer_manager.cpp:204-210 | the slot ends empty, and the list of every other slot is its old one followed by the nodes of the emptied slot that choose it, in the order in which they stood there |
| TimerLine.EmptiedOrder | src/timer_manager.cpp:204-210 | whatever empties a slot in that way keeps any two timers of one slot for the same tick together and in order |
| TimerLine.FirstMayStart | src/timer_manager.cpp:232-237 | in front of the first timer of a slot there is no timer in the line that it would have to wait for |
| TimerLine.LaterAhead | src/timer_manager.cpp:115-210 | of two timers for one tick the one set first, 299 ticks ahead, is behind the one set 99 ticks later in the slot of that tick |
| TimerManagers.TimerManager.Update | src/timer_manager.cpp:217-253 | for all callbacks within the limits above: what happens is a run of the flat machine in which only time passes and callbacks start and make the calls of their scripts, each call in order and no other; `cur_time_` becomes max(cur_time_, t + 1), no timer due by t is left, and every timer that waited and that no script deletes started at exactly its scheduled ticks up to t; and over the whole history of the manager any two timers set for one tick, between updates or in callbacks, both at one time or the first less than 256 ticks ahead, and not deleted, start in the order in which they were set |
| TimerManagers.SetTwoAndUpdate | src/timer_manager.cpp:115-253 | of two timers set one after the other with the same delay, and deleted by no script, the second does not start before the first |
| TimerOrder.SetInTurnOrder | src/timer_manager.cpp:144-253 | in every run of the flat machine that keeps to the line: of two timers set for one tick, not in the node of a running callback and not deleted, the one set first starts first if both were set at one time or the first less than 256 ticks ahead |
| TimerOrder.PairedOrder | src/timer_manager.cpp:232-253 | from any state on: of two such timers that wait, whether set or set again after a callback, the one in front in the line starts first |
| TimerClient.RunsPunctual | src/timer_manager.cpp:217-253 | in every such run that ends with nothing due, a timer that waits at the beginning and that no script deletes starts at exactly its scheduled ticks, with its own callback |
| TimerClient.SetDuringRun | src/timer_manager.cpp:144-171 | every timer set in the course of the run is set by a callback, and starts at exactly its scheduled ticks too, except in the node of the timer whose callback it is |
| TimerClient.ScriptKeeps | src/timer_manager.cpp:217-253 | a timer that no script deletes is not deleted |
| TimerClient.RunsRun | src/timer_manager.cpp:217-253 | every run of flat machine and scripts is a run of the flat machine |
| TimerFlat.FiringsOrdered | src/timer_manager.cpp:224-237 | over every run callbacks start in non-decreasing tick order |
| TimerFlat.SetTimerRuns | src/timer_manager.cpp:144-171 | a timer set at `cur_time_` = c, between updates or in a callback (except in the node of the timer whose callback it is), with any delay, starts at tick max(c, c + delay - 1): a one-shot one exactly once, a periodic one then every interval + 1 ticks, over every later run that does not delete it, and always with the callback it was given |
| TimerFlat.PeriodicOnSchedule | src/timer_manager.cpp:242-246 | a periodic timer starts at d, d + (v + 1), d + 2 (v + 1), ... exactly for the ticks that have passed |
| TimerFlat.OneShotOnSchedule | src/timer_manager.cpp:247-250 | a one-shot timer starts exactly once, at its due tick |
| TimerFlat.FirstStart | src/timer_manager.cpp:232-237 | a timer that is not deleted first starts at its due tick, and waits unchanged until then |
| TimerFlat.SetInCallback | src/timer_manager.cpp:144-250 | whatever else the callback does short of deleting it, a timer that it sets waits for its tick when the callback is over; in the node of the timer whose callback it was it waits for interval ticks instead, and is lost when it is one-shot |
| TimerFlat.SettleKeeps | src/timer_manager.cpp:238-250 | the exact condition under which a timer just set is kept as it was set |
| TimerFlat.SetAndLost | src/timer_manager.cpp:238-250 | an input at which it is lost |
| TimerFlat.DeadStaysDead | src/timer_manager.cpp:83-98 | a handle that is deleted or over is not found again, and its timer does not start again, until its node has been issued 2^16 times since |
| TimerFlat.DeadNeverStarts | src/timer_manager.cpp:83-98 | a timer that is deleted or over does not start again unless its very handle is issued again |
| TimerFlat.NotReissuedSoon | src/timer_manager.cpp:153-163 | no handle of a node comes again within 2^16 issues of that node |
| TimerFlat.HandleReturns | src/timer_manager.cpp:153-163 | a handle is its node's current one again exactly when the node has been issued a multiple of 2^16 times since |
| TimerFlat.WellFormedKept | src/timer_manager.cpp:83-98 | every event keeps live handles apart and every timer due no earlier than the tick being drained |
| SpscQueue.Safety | include/mzx/spsc_queue.h:57-131 | over every interleaving: no slot is built over, read or destroyed in the wrong state; the values constructed are those given to the pushes and made by the callbacks, in the order of the steps; the values delivered are a prefix of those published, which are a prefix of those given; at most the capacity is outstanding |
| SpscQueue.RunGiven | include/mzx/spsc_queue.h:57-91 | from any state on, what a run constructs is what its steps give, read off the steps alone |
| SpscQueue.PushAppends | include/mzx/spsc_queue.h:57-69 | `Push`, over every interleaving: nothing happens and it returns false if and only if the queue is full where the read index is loaded; otherwise exactly its value is published and it returns true |
| SpscQueue.ProductAppends | include/mzx/spsc_queue.h:70-91 | `Product`, over every interleaving: exactly the values its callbacks make are published, min(count, free places where the read index is loaded) in number, and it returns that number |
| SpscQueue.PopTakesHead | include/mzx/spsc_queue.h:92-109 | `Pop`, over every interleaving: it delivers and releases nothing and returns false if and only if the queue is empty where the write index is loaded; otherwise exactly the head of the queue, and it returns true |
| SpscQueue.ConsumeTakesFirst | include/mzx/spsc_queue.h:110-131 | `Consume`, over every interleaving: exactly the first min(count, size of the queue where the write index is loaded) values are delivered and released, and it returns that number |
| SpscQueue.StepInv | include/mzx/spsc_queue.h:57-131 | every step of either thread keeps the invariant that ties indices, slots and history together |
| SpscQueue.Enabled | include/mzx/spsc_queue.h:57-131 | in every reachable state each thread has a next step that applies, and may begin any operation when it is between two: neither waits for the other |
| SpscQueue.ProducerEnds | include/mzx/spsc_queue.h:57-91 | over every interleaving the producer's operation is over after a number of its own steps fixed when it began, whatever the consumer does |
| SpscQueue.ConsumerEnds | include/mzx/spsc_queue.h:92-131 | the same for the consumer |
| SpscQueue.StepWorks | include/mzx/spsc_queue.h:57-131 | every step brings its own thread nearer to the end of its operation and leaves the other where it is |
| SpscQueue.PublishRefines | include/mzx/spsc_queue.h:70-91 | the store of `write_index_` is as many pushes onto a bounded FIFO queue as values were built, one for `Push` and the count for `Product` |
| SpscQueue.ReleaseRefines | include/mzx/spsc_queue.h:110-131 | the store of `read_index_` is as many pops, delivering those very values |
| SpscQueue.OthersStutter | include/mzx/spsc_queue.h:57-131 | no other step changes the queue |
| SpscQueue.Snapshots | include/mzx/spsc_queue.h:38-50 | the producer's view of the free space and the consumer's view of the content never exceed the true ones, whatever the other thread does meanwhile; the index comparisons hold exactly for a queue that is full, or was empty at the load; on equal indices the two sum to `max_size_` - 1 |
| SpscQueue.Distance | include/mzx/spsc_queue.h:154-174 | on wrapped indices the two static functions give the distance of the counters behind them |
| SpscQueue.NextIndex | include/mzx/spsc_queue.h:144-152 | the loop computes the successor modulo the ring size |
| Events.Event.AddListener | include/mzx/event.h:47-60 | one record more at the end, none removed, with list, index and counts in step |
| Events.Event.RemoveListener | include/mzx/event.h:61-69 | no registration under the identifier is live afterwards, and every other one is as live as before |
| Events.Event.RemoveAllListener | include/mzx/event.h:75-85 | no registration is live afterwards; nodes that a loop stands on stay linked |
| Events.Event.Invoke | include/mzx/event.h:86-100 | for every nesting of additions, removals and invocations by listeners: each call goes to the next live registration, the registrations change by what the listeners called do and by nothing else, and no live one is left out; when the listeners do nothing, exactly the listeners of the live registrations are called, in order, and the registrations are as before; every cursor is given back |
| Events.InvokeInvocation | include/mzx/event.h:86-100 | the same of the loop over registration numbers, call by call: from one call to the next an addition has appended one record, a removal has taken the live ones under its identifier, removing all has taken all, an inner invocation has done the same within |
| Events.NothingCallsAll | include/mzx/event.h:86-100 | whatever is such an invocation of listeners that do nothing calls all live ones in order and changes nothing |
| Events.InvokeInOrder | include/mzx/event.h:86-100 | calls go in the order of registration, those added meanwhile after all older ones, nobody twice, and nobody removed before its turn |
| Events.InvokeCallsExactly | include/mzx/event.h:86-100 | a registration, old or made meanwhile, is called if and only if it is not removed before its turn |
| Events.InvokeGrows | include/mzx/event.h:86-100 | an invocation only adds registrations and removals |
| Events.Event.LinkedIffCounted | include/mzx/data_structure/list_safe_node.h:29-51 | the count is one for the data plus one for each cursor, a node is linked if and only if it is positive, and a cursor's next node is linked or the end; a node that has deleted itself is in neither list nor index and under no cursor |
| Events.Event.Settled | include/mzx/event.h:61-100 | with no `Invoke` in progress the list and the index hold the same nodes, those not removed |
| Events.ListenerNode.Detach | include/mzx/data_structure/list_safe_node.h:41-51 | gives up the data and its reference once, and tells whether that was the last |
| Events.ListenerNode.DecrRef | include/mzx/data_structure/list_safe_node.h:33-40 | one reference fewer, and whether it was the last |
| IntrusiveLists.ListNode.Insert | include/mzx/data_structure/list.h:43-50 | links the node between its neighbours, also when they are one and the same |
| IntrusiveLists.ListNode.Erase | include/mzx/data_structure/list.h:51-59 | joins the neighbours and leaves the node linked to itself; for one that already is, nothing changes |
| IntrusiveLists.List.PushFront | include/mzx/data_structure/list.h:114-118 | the node comes before all others |
| IntrusiveLists.List.PushBack | include/mzx/data_structure/list.h:119-123 | the node comes after all others |
| IntrusiveLists.List.PopFront | include/mzx/data_structure/list.h:124-133 | takes out the first node, null exactly when there is none |
| IntrusiveLists.List.PopBack | include/mzx/data_structure/list.h:134-143 | takes out the last node, null exactly when there is none |
| IntrusiveLists.List.Erase | include/mzx/data_structure/list.h:144-148 | takes out any node and returns the one after it: the items are `Without` it, and the result is the one `After` it |
| IntrusiveLists.List.NextItem | include/mzx/data_structure/list.h:20-41 | every node points to the item after it, the last one to the head |
| IntrusiveLists.List.Carried | include/mzx/data_structure/list.h:114-148 | for elements kept as a sequence and carried by the nodes of a list, as the timers and the listeners are: stepping on, erasing, pushing and popping on the pointers are `After`, `Without` and the ends of that sequence |
| IntrusiveLists.List.Clear | include/mzx/data_structure/list.h:149-155 | ends, with the list empty and every node unlinked |
| IntrusiveLists.List.LinkedWhileListed | include/mzx/data_structure/list.h:20-23 | every node of a list is linked, so that `IsLinked` tells whether a node is in one |
| IntrusiveLists.List.Steps | include/mzx/data_structure/list.h:20-41 | from any place, k steps forward and k steps backward meet the k-th node that way in order, around to the head |
| HeapSorts.AdjustHeap | include/mzx/algorithm/sort/heap_sort.h:10-31 | turns a heap broken at one place into a heap over its range and rearranges nothing else |
| HeapSorts.SwapSinks | include/mzx/algorithm/sort/heap_sort.h:26-30 | swapping the broken place with its greater child breaks the heap at most there |
| HeapSorts.RootIsGreatest | include/mzx/algorithm/sort/heap_sort.h:45-49 | nothing in a heap is greater than its root |
| HeapSorts.HeapSort | include/mzx/algorithm/sort/heap_sort.h:33-50 | a sorted permutation |
| MergeSorts.MergeSort | include/mzx/algorithm/sort/merge_sort.h:43-55 | a sorted permutation in which equivalent elements keep their order |
| MergeSorts.SortRange | include/mzx/algorithm/sort/merge_sort.h:10-41 | each call sorts its range and touches nothing outside of it and of the matching part of the store |
| MergeSorts.MergeToStore | include/mzx/algorithm/sort/merge_sort.h:20-36 | what is stored and what is left of the second run, which is in place already, make up the merge |
| MergeSorts.MergeSortedIsStableSort | include/mzx/algorithm/sort/merge_sort.h:10-41 | the sequence the code computes is sorted, a permutation and stable |
| MergeSorts.MergedStable | include/mzx/algorithm/sort/merge_sort.h:23-33 | merging keeps the order of equivalent elements, those of the first run first |
| QuickSorts.Partition | include/mzx/algorithm/sort/quick_sort.h:16-38 | a permutation of the range with nothing greater than the pivot before it and nothing less behind it |
| QuickSorts.HoleMoves | include/mzx/algorithm/sort/quick_sort.h:20-37 | filling the hole from the other side keeps the range, with the pivot in the hole, a permutation |
| QuickSorts.QuickSort | include/mzx/algorithm/sort/quick_sort.h:43-52 | a sorted permutation |
| ShellSorts.GapKept | include/mzx/algorithm/sort/shell_sort.h:17-33 | a sequence ordered at any gap stays so when it is ordered at another one |
| ShellSorts.Pass | include/mzx/algorithm/sort/shell_sort.h:19-32 | a pass orders the array at its gap, permutes it and keeps the order of every pass before |
| ShellSorts.ShellSort | include/mzx/algorithm/sort/shell_sort.h:9-34 | a sorted permutation |
| CountingPass.BucketsStable | include/mzx/algorithm/sort/radix_sort.h:41-57 | elements with equal digits keep their order through a pass |
| CountingPass.BucketsKeep | include/mzx/algorithm/sort/radix_sort.h:41-57 | a pass is a permutation |
| CountingPass.ScatterNext | include/mzx/algorithm/sort/radix_sort.h:49-52 | each element of the backward loop goes to its own place, and nothing placed before is overwritten |
| RadixSorts.PassesOrdered | include/mzx/algorithm/sort/radix_sort.h:38-59 | after i passes the array is a permutation ordered by value modulo 10^i |
| RadixSorts.CountPasses | include/mzx/algorithm/sort/radix_sort.h:24-34 | d with every element below 10^d, and no smaller one from 1 on |
| RadixSorts.RadixSort | include/mzx/algorithm/sort/radix_sort.h:12-60 | an ascending permutation |

## Left out

- RBTreeNodes.RBTreeNode.Erase: not for a node with two children of which the left one is black and has none: `TakeOut` shows that lines 224-265 leave no tree there, and what lines 266-388 make of the pointers left is not followed.
- RBTrees.RBTree.Erase: only nodes with at most one child, since with two the container is not in order afterwards; `Erase(Key)` (rbtree.h lines 294-309) depends on that branch and on the null case of `UpperBound`.
- RBTreeNodes.RBTreeNode.TakeOut: the order of the writes inside one step follows the code except where parent and colour share a word; packing pointer and colour bits is not modelled.
- TimerManagers.TimerManager.Update: callbacks do not call `Update`, and keep clear of delay 256 and interval 255, for the reason given above; a `std::function` destroyed while it runs is not modelled.
- TimerFlat.SetTimerRuns: not for a timer set in the node of the timer whose callback is running, where it is false; `TimerFlat.SetInCallback` says what becomes of that one.
- TimerManagers.TimerManager.InsertTimerNodeToWheel: timer nodes are records in a sequence, wheel slots and the free list are sequences of node numbers; that a pointer list carrying them behaves as such a sequence is `IntrusiveLists.List.Carried`, one list at a time.
- Events.Event.Invoke: the list of listeners is a sequence of node objects, joined to the pointers by the same lemma; arguments and results of listeners are left out.
- Events.Event.RemoveListener: the order in which a multimap lists equal keys is not used.
- SpscQueue.Safety: weak memory; each acquire or release access is one atomic step.
- `EventManager` (event.h): a map from types to events.
- `EntityManager`, `Entity` and components (src/ecs.cpp): a second client of the iteration protocol proved for events, plus class-index plumbing.
- `Uninit` and destructors of whole containers: release of memory.
- Overflow of times, counters and `p *= 10`: unbounded integers.
- Selection, insertion, bubble, count and bucket sort: easier than the five above.
- Sockets, threads, signals, logging, date and time, random numbers, strings and vectors: operating system calls or unrelated code.
