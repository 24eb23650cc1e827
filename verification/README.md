# Verified models of the unix repository

This project models the parts of the repository whose correctness is hard to see by reading, and proves what they
promise, or exactly when they keep it.

**AVL tree** (`libraries/avl_tree`). `AvlTree.dfy` is the tree as a value, with stored heights that may be stale and
with NULL results where the C code would dereference them. `AvlInsert.dfy` and `AvlDelete.dfy` hold what one
insertion or deletion guarantees, `AvlShape.dfy` the shape and heights it leaves on any tree, `AvlBounds.dfy` the
search bound, `AvlRuns.dfy` whole runs against a sorted sequence (`Ordering.dfy`), `AvlLevelOrder.dfy` and
`AvlReload.dfy` the walk and the save/reload round trip. `AvlNodes.dfy`, `LinkedQueue.dfy` and `AvlObject.dfy` are the
same operations on nodes in the heap, rewritten in place as the C code does, each proved equal to its value-level
counterpart. The comparison function is an arbitrary total preorder.

**Thread pool** (`libraries/thread_pool`). `ThreadPool.dfy` is a step system: any number of workers and clients, one
caller of shutdown, a mutex, a condition with spurious wakeups, and the history of tasks. On top of it,
`PoolCalls.dfy` follows tasks from the clients' calls into the queue and says who waits for what,
`ShutdownPromise.dfy` says what becomes of tasks queued when shutdown is called, `Sleepers.dfy` when all workers can be
asleep with something to do, and `PoolDrains.dfy` that an open pool left alone finishes its tasks. `TaskList.dfy` is
the linked task list, each critical section tied to the steps it performs.

**Multi-word arithmetic in assembly.** `Div128.dfy` is the 128-bit division; `FibCarry.dfy` the Fibonacci program
whose upper limbs are only touched once something was carried into them; `FibFour.dfy` the four-limb one with its
hexadecimal and octal output. `Words.dfy`, `Powers.dfy`, `Bits.dfy`, `Arithmetic.dfy` and `FibTable.dfy` (the sizes of the Fibonacci
numbers the programs reach) support them.

**Files and text.** `Checksum.dfy` is the program that appends a checksum to a file and takes it off again,
`Decimal128.dfy` printing and reading 128-bit decimals, `HexString.dfy` printing and reading a register in hexadecimal.

## Where the code and its documentation differ

The model follows the code.

- `insert_node` can dereference NULL on a stored key once a deletion has left a stale height
  (`AvlInsert.InsertDefined` says exactly when, `AvlRuns.HazardIsReachable` gives a family of runs). The in-place
  insertions return whether they came back; into a balanced tree they always do.
- `delete_node` does not rebalance on the way down to a deep successor. `AvlDelete.DeleteBalanced` says exactly
  when the result is balanced all the same.
- `avl_insert` counts a duplicate it does not store; the `count` field is too high by the duplicates dropped.
- `thread_pool_lib.h` (line 37) promises that shutdown waits for all queued tasks; the code discards those no worker
  has taken (lines 159-165 of `thread_pool_lib.c`). `ShutdownPromise.PromiseBroken` is a run in which a task is lost,
  `ShutdownPromise.PromiseKept` says exactly when none is.
- The number of workers shutdown joins goes through eight bits, so more than 255 are not all waited for.
- Between setting the flag and the broadcast, and between appending a task and its signal, every worker may be
  asleep; `Sleepers.UnattendedExactly` shows that it happens at both moments and at no other.
- `div128.s` line 43 takes `bsr` of `rdx`, the low word of the divisor, where its comment names the high word of
  the dividend. `Udivmodti4` models both: the commented register always works; the written one works exactly when the
  condition `Fits` holds. With the written register a zero low word of the divisor has no defined `bsr`, which is an
  outcome of its own.
- `checksum.s` reports a rejected file as unchanged. One of fewer than two bytes is compared with stack bytes, and
  gains two bytes when rejected (`Checksum.RejectedUnchanged`).

## Model

| member | source | states |
|---|---|---|
| AvlInsert.InsertContents | libraries/avl_tree/avl_tree_lib.c:676-734 | whenever insertion into an ordered tree comes back, the data in order are the old ones with the new one at its sorted place, or unchanged for a stored key |
| AvlInsert.InsertNonNegative | libraries/avl_tree/avl_tree_lib.c:731 | insertion keeps stored heights non-negative, stale or not |
| AvlInsert.InsertDefined | libraries/avl_tree/avl_tree_lib.c:693-731 | on any ordered tree, stale heights included, insertion dereferences NULL if and only if the key is stored in a child with no inner subtree that the parent is about to rotate through |
| AvlInsert.RecomparisonPicksRotationLeft | libraries/avl_tree/avl_tree_lib.c:697-709 | whenever inserting into the left subtree of a balanced node calls for a rotation, comparing the key again names the grandchild that grew, and the rotation it picks gives a balanced node with exact heights and the height before |
| AvlInsert.RecomparisonPicksRotationRight | libraries/avl_tree/avl_tree_lib.c:715-727 | the mirror image |
| AvlInsert.GrownFrom | libraries/avl_tree/avl_tree_lib.c:676-734 | a balanced node that grew kept its datum and its other subtree, and the subtree on the key's side grew by one |
| AvlInsert.InsertBalanced | libraries/avl_tree/avl_tree_lib.c:676-734 | a balanced tree with exact heights takes any key without a NULL dereference, stays balanced with exact heights, and grows by at most one |
| AvlShape.InsertShape | libraries/avl_tree/avl_tree_lib.c:676-734 | on every tree, stale or not: a difference of exactly two after the insertion below puts the child, or by the second comparison its inner grandchild, on top and the old root's datum down on the other side, ending on NULL where there is none; any other leaves the root in place; heights of the nodes touched are exact |
| AvlTree.RotateRightKeepsOrder | libraries/avl_tree/avl_tree_lib.c:607-626 | a right rotation whose child exists keeps the in-order sequence |
| AvlTree.RotateLeftKeepsOrder | libraries/avl_tree/avl_tree_lib.c:629-647 | a left rotation whose child exists keeps the in-order sequence |
| AvlTree.RotateLeftRightKeepsOrder | libraries/avl_tree/avl_tree_lib.c:650-655 | the double rotation keeps the in-order sequence |
| AvlTree.RotateRightLeftKeepsOrder | libraries/avl_tree/avl_tree_lib.c:658-673 | its mirror image too |
| AvlTree.RebalanceKeepsOrder | libraries/avl_tree/avl_tree_lib.c:1002-1037 | the rebalancing after a deletion never rotates through a missing child and keeps the sequence, whatever heights are stored |
| AvlTree.BalancedHeights | libraries/avl_tree/avl_tree_lib.c:600-604 | in a balanced tree the stored height is the true one, -1 for the empty tree |
| AvlDelete.DeleteContents | libraries/avl_tree/avl_tree_lib.c:920-1041 | on every ordered tree, stale heights included: true if and only if the key is present, exactly the stored element is destroyed, the rest stays in order |
| AvlDelete.DeleteConserves | libraries/avl_tree/avl_tree_lib.c:949-998 | the data before are the data after plus the destroyed one, as multisets |
| AvlDelete.RemoveRootContents | libraries/avl_tree/avl_tree_lib.c:951-998 | taking out the found node leaves the data of its two subtrees, in order |
| AvlDelete.RemoveMinBalanced | libraries/avl_tree/avl_tree_lib.c:974-993 | splicing out a deep successor moves no stored height, and is harmless to balance exactly when the successor's parent has children of equal height |
| AvlDelete.ShallowRemoveRoot | libraries/avl_tree/avl_tree_lib.c:953-992 | with at most one child, or a right child without a left one, one rebalancing restores balance and the height drops by at most one |
| AvlDelete.DeleteBalanced | libraries/avl_tree/avl_tree_lib.c:920-1041 | deletion from a balanced tree gives a balanced tree if and only if a deep successor's parent is even; the height drops by at most one; with a deep successor no rotation fires and no stored height moves |
| AvlDelete.DeleteNearlyBalanced | libraries/avl_tree/avl_tree_lib.c:969-1037 | after any deletion from a balanced tree stored heights are at most one too high and true balance factors stay within two |
| AvlDelete.SplicedNearlyBalanced | libraries/avl_tree/avl_tree_lib.c:969-998 | the same for the bare splice, whose true height is the old one or one less |
| AvlShape.DeleteShape | libraries/avl_tree/avl_tree_lib.c:920-1041 | on every tree with non-negative heights: if the subtrees' stored heights differ by more than one, by however much, the old root's datum goes down on the lower side below the higher child or its inner child, by which grandchild stores more; otherwise the root keeps its place; heights of the nodes touched are exact |
| AvlShape.RemoveMinKeeps | libraries/avl_tree/avl_tree_lib.c:969-993 | splicing out the successor takes exactly that node out of the left-to-right and of the root-first order, and moves no other datum or stored height |
| AvlBounds.SearchFinds | libraries/avl_tree/avl_tree_lib.c:737-761 | search finds the stored element equal to the key if and only if there is one, although it hands the comparison its arguments the other way round than insertion |
| AvlBounds.CountIsLength | libraries/avl_tree/avl_tree_lib.c:764-774 | the recursive count is the number of data |
| Ordering.LookupMeaning | libraries/avl_tree/avl_tree_lib.c:745-760 | the reference search finds the only element equal to the key, if there is one |
| Ordering.SortedInsertAdds | libraries/avl_tree/avl_tree_lib.c:693-713 | the reference insertion adds the key and nothing else, and keeps an equal element that is there already |
| Ordering.SortedRemoveTakes | libraries/avl_tree/avl_tree_lib.c:935-998 | the reference deletion takes out exactly the element the search finds |
| AvlBounds.FibonacciBound | libraries/avl_tree/avl_tree_lib.c:600-734 | a balanced tree of height h holds at least Fib(h + 3) - 1 data |
| AvlBounds.SearchDecided | libraries/avl_tree/avl_tree_lib.c:737-761 | the result of a search is fixed by the signs of the comparison at stored data, no more than one on each level |
| AvlBounds.SearchLogarithmic | libraries/avl_tree/avl_tree_lib.c:737-761 | in a balanced tree by at most logarithmically many of them: any comparison function that agrees there finds the same |
| AvlRuns.InsertRefines | libraries/avl_tree/avl_tree_lib.c:273-288 | an insertion that comes back does to data, destroyed data and count what the sorted reference says |
| AvlRuns.DeleteRefines | libraries/avl_tree/avl_tree_lib.c:290-309 | so does every deletion |
| AvlRuns.RunRefines | libraries/avl_tree/avl_tree_lib.c:273-309 | every run of insertions and deletions that survives behaves as a sorted sequence does, and count exceeds the data by the duplicates dropped |
| AvlRuns.RunConserves | libraries/avl_tree/avl_tree_lib.c:273-309 | over any such run every inserted datum is stored, destroyed, or dropped as a duplicate, in exactly one of these ways |
| AvlRuns.RunDefined | libraries/avl_tree/avl_tree_lib.c:273-309 | a run survives if and only if no insertion in it meets the NULL condition |
| AvlRuns.BalancedRun | libraries/avl_tree/avl_tree_lib.c:273-309 | a run whose deletions pass the caller's check survives and ends balanced |
| AvlRuns.InsertionsKeepBalanced | libraries/avl_tree/avl_tree_lib.c:273-288 | runs of insertions alone pass that check |
| AvlRuns.HazardIsReachable | libraries/avl_tree/avl_tree_lib.c:693-731 | for any seven increasing keys: seven insertions, one deletion and one insertion of a stored key, from the empty tree, dereference NULL |
| AvlLevelOrder.TurnShrinks | libraries/avl_tree/avl_tree_lib.c:498-513 | each turn of the walk takes one node out of the queued subtrees' total size |
| AvlLevelOrder.WalkFinishesLevel | libraries/avl_tree/avl_tree_lib.c:498-513 | a level in the queue is visited left to right before its children, which queue up behind |
| AvlLevelOrder.LevelOrderIsLevels | libraries/avl_tree/avl_tree_lib.c:483-516 | the walk emits the concatenation of the levels, root down, each left to right |
| AvlLevelOrder.LevelOrderVisitsAll | libraries/avl_tree/avl_tree_lib.c:483-516 | it emits every datum exactly once |
| AvlReload.LevelAscends | libraries/avl_tree/avl_tree_lib.c:504-512 | in an ordered tree each level comes out from small to large |
| AvlReload.ExtendCut | libraries/avl_tree/avl_tree_lib.c:676-734 | inserting the next datum of a level into the tree cut off there extends the cut by that node, with no rotation |
| AvlReload.ReloadRoundTrip | libraries/avl_tree/avl_tree_lib.c:546-568 | inserting what the level-order walk of a balanced tree wrote rebuilds the identical tree, heights included, just as insertion without rotations would |
| AvlNodes.UpdateHeight | libraries/avl_tree/avl_tree_lib.c:731 | the height field is rewritten in place and nothing else |
| AvlNodes.RotateRight | libraries/avl_tree/avl_tree_lib.c:607-626 | the pointers are turned in place into the rotated tree; NULL comes back for a missing node or child |
| AvlNodes.RotateLeft | libraries/avl_tree/avl_tree_lib.c:629-647 | likewise to the left |
| AvlNodes.RotateLeftRight | libraries/avl_tree/avl_tree_lib.c:650-655 | the double rotation in place |
| AvlNodes.RotateRightLeft | libraries/avl_tree/avl_tree_lib.c:658-673 | its mirror image |
| AvlNodes.InsertNode | libraries/avl_tree/avl_tree_lib.c:676-734 | for every tree the recursion on nodes dereferences NULL exactly when the value-level insertion does, and otherwise leaves nodes that spell out its tree, any node not there before being fresh |
| AvlNodes.FindSuccessor | libraries/avl_tree/avl_tree_lib.c:971-978 | the loop ends at the leftmost node of the right subtree and at its parent |
| AvlNodes.SpliceSuccessor | libraries/avl_tree/avl_tree_lib.c:969-998 | the node keeps its place, takes the successor's datum, and the successor leaves the tree |
| AvlNodes.RemoveRoot | libraries/avl_tree/avl_tree_lib.c:949-999 | all three ways of taking out the found node agree with the value-level one |
| AvlNodes.DeleteNode | libraries/avl_tree/avl_tree_lib.c:920-1041 | the in-place deletion yields the tree, flag and destroyed data of the value-level one |
| AvlNodes.Rebalance | libraries/avl_tree/avl_tree_lib.c:1002-1037 | the in-place rebalancing yields the value-level one |
| AvlNodes.Search | libraries/avl_tree/avl_tree_lib.c:737-761 | following the pointers finds what the value-level search finds |
| AvlNodes.Count | libraries/avl_tree/avl_tree_lib.c:764-774 | following the pointers counts the nodes |
| LinkedQueue.Queue.constructor | libraries/avl_tree/avl_tree_lib.c:819-831 | an empty queue |
| LinkedQueue.Queue.IsEmpty | libraries/avl_tree/avl_tree_lib.c:896-900 | head NULL means the sequence is empty |
| LinkedQueue.Queue.Enqueue | libraries/avl_tree/avl_tree_lib.c:834-863 | the head/tail list gains its element at the end of the sequence |
| LinkedQueue.Queue.Dequeue | libraries/avl_tree/avl_tree_lib.c:866-893 | the first element of the sequence comes off, or nothing from an empty one |
| AvlObject.Turn | libraries/avl_tree/avl_tree_lib.c:500-512 | one turn visits the first queued node and queues its children behind the rest |
| AvlObject.LevelOrder | libraries/avl_tree/avl_tree_lib.c:483-516 | the loop over the linked queue emits the walk of the tree's value and terminates |
| AvlObject.AvlTree.constructor | libraries/avl_tree/avl_tree_lib.c:213-236 | an empty tree for any total preorder |
| AvlObject.AvlTree.Insert | libraries/avl_tree/avl_tree_lib.c:273-288 | comes back exactly off the NULL condition, and then the object has done what one step of a run does, keeps its invariant, and holds the old data and the new one in order |
| AvlObject.AvlTree.Delete | libraries/avl_tree/avl_tree_lib.c:290-309 | the same for deletion, always |
| AvlObject.AvlTree.Find | libraries/avl_tree/avl_tree_lib.c:393-412 | the stored element equal to the key, in every state the object can reach |
| AvlObject.AvlTree.TotalElements | libraries/avl_tree/avl_tree_lib.c:414-433 | the number of stored data, unlike the count field |
| AvlObject.AvlTree.Save | libraries/avl_tree/avl_tree_lib.c:518-573 | every datum is written once, and from a balanced tree in an order that reloads to the identical tree |
| ThreadPool.StepInv | libraries/thread_pool/thread_pool_lib.c:94-208 | every step of any worker, client or shutdown keeps mutual exclusion, the flag's meaning, task order, task ownership, wakeup accounts and join progress |
| ThreadPool.RunInv | libraries/thread_pool/thread_pool_lib.c:94-208 | so does every interleaving |
| PoolCalls.AppendsItsCalls | libraries/thread_pool/thread_pool_lib.c:94-135 | over every run of a fresh pool the k-th task a client appends is the one of its k-th call, only a call under way not having appended yet |
| PoolCalls.CalledIsEnqueued | libraries/thread_pool/thread_pool_lib.c:94-135 | over every such run the tasks called with are those enqueued and those in clients' hands, as multisets |
| PoolCalls.WorkerWaits | libraries/thread_pool/thread_pool_lib.c:179-207 | a worker that has not returned can always go on except for the mutex, and wakes spuriously exactly when asleep |
| PoolCalls.ClientWaits | libraries/thread_pool/thread_pool_lib.c:94-135 | a client may call with any task until shutdown takes the pool apart, then waits for the mutex only; its signal may wake any sleepers, but not nobody while there is one |
| PoolCalls.CloserWaits | libraries/thread_pool/thread_pool_lib.c:138-169 | shutdown waits for the mutex, for each worker in turn, and for calls under way, and for nothing else |
| ThreadPool.WorkKeepsMutex | libraries/thread_pool/thread_pool_lib.c:179-202 | a worker's steps keep exactly the mutex owner inside a critical section |
| ThreadPool.WorkKeepsTickets | libraries/thread_pool/thread_pool_lib.c:193-206 | a worker's steps keep each taken task with exactly the worker that took it until it finishes |
| ThreadPool.WorkKeepsWakeups | libraries/thread_pool/thread_pool_lib.c:179-202 | a worker's steps keep as many workers on their way as there are tasks queued, while anyone sleeps |
| ThreadPool.NoLostWakeup | libraries/thread_pool/thread_pool_lib.c:110-133 | in every reachable state with a sleeper, every queued task has an awake worker on its way to the queue, up to the one whose signal is due |
| ThreadPool.SomeoneAwake | libraries/thread_pool/thread_pool_lib.c:145-150 | once a task's signal is sent or shutdown broadcast, some worker is awake or all have returned |
| Sleepers.UnattendedExactly | libraries/thread_pool/thread_pool_lib.c:110-150 | for a pool of any size: a reachable state with a queued task or a set flag and no worker up exists between append and signal and between flag and broadcast, and at no other moment |
| Sleepers.AttendedOtherwise | libraries/thread_pool/thread_pool_lib.c:110-150 | and in such a state at most the one task just appended is queued |
| ThreadPool.WorkNeverStuck | libraries/thread_pool/thread_pool_lib.c:179-202 | while a task is queued some step other than a caller's or a spurious wakeup is possible |
| PoolDrains.StepUses | libraries/thread_pool/thread_pool_lib.c:94-208 | before shutdown is called every step other than a caller's or a spurious wakeup uses up the work left |
| PoolDrains.RestIsIdle | libraries/thread_pool/thread_pool_lib.c:179-207 | no such step is left exactly when all workers sleep, no client is inside a call and nothing is queued, and then every task has finished |
| PoolDrains.Drains | libraries/thread_pool/thread_pool_lib.c:94-208 | from any reachable state of an open pool, what it does by itself is bounded by the work left, and where it stops every task enqueued has finished |
| ThreadPool.NeverRetries | libraries/thread_pool/thread_pool_lib.c:195-199 | the branch that finds no task after the wait is never taken |
| ThreadPool.FirstInFirstOut | libraries/thread_pool/thread_pool_lib.c:112-128 | tasks taken are a prefix of tasks enqueued, the rest is discarded or queued, and enqueued = queued + discarded + in work + finished, in every reachable state |
| ThreadPool.TakenOnce | libraries/thread_pool/thread_pool_lib.c:193-206 | no task is with two workers, with one after it finished, or finished twice |
| ThreadPool.ShutdownStopsWork | libraries/thread_pool/thread_pool_lib.c:181-192 | from the flag on no worker takes a task; from the broadcast on none sleeps; over any continuation |
| ThreadPool.FreedAfterAll | libraries/thread_pool/thread_pool_lib.c:152-168 | with at most 255 workers the pool is freed only after all returned, when every task has finished or been discarded |
| ShutdownPromise.DiscardedInTheEnd | libraries/thread_pool/thread_pool_lib.c:138-168 | what is discarded is exactly the queue as it was at any moment after the flag was set, and every task appended from then on |
| ShutdownPromise.PromiseKept | libraries/thread_pool/thread_pool_lib.c:138-168 | with at most 255 workers, the tasks enqueued when the flag is set all finish if and only if the queue is empty then, and all tasks ever enqueued if and only if, besides, none is appended later |
| ShutdownPromise.PromiseBroken | libraries/thread_pool/thread_pool_lib.c:159-165 | with one worker and one client any task can be enqueued and then discarded |
| ThreadPool.StepsDecrease | libraries/thread_pool/thread_pool_lib.c:138-208 | after the broadcast every step other than a new client call uses up the measure of steps left |
| ThreadPool.ShutdownTerminates | libraries/thread_pool/thread_pool_lib.c:138-208 | after the broadcast every run without new calls is at most that long |
| ThreadPool.ShutdownNeverStuck | libraries/thread_pool/thread_pool_lib.c:138-208 | and until the pool is freed some such step is possible |
| ThreadPool.FreedTooEarly | libraries/thread_pool/thread_pool_lib.c:42-88 | a pool can be freed under a worker that has not returned if and only if it has more than 255 workers |
| TaskList.Tpool.Append | libraries/thread_pool/thread_pool_lib.c:110-128 | walking to the last cell and hanging the new one behind it is the client's append step |
| TaskList.Tpool.AfterWait | libraries/thread_pool/thread_pool_lib.c:188-200 | the branches after the wait are exactly the steps possible there, and the task taken is the first one |
| TaskList.Tpool.SetShutdown | libraries/thread_pool/thread_pool_lib.c:147 | setting the flag is shutdown's flag step |
| TaskList.Tpool.DiscardAll | libraries/thread_pool/thread_pool_lib.c:159-165 | the last loop frees exactly the queued tasks, front to back, and is a run of that many discard steps, after which the pool can be freed |
| Words.Add | assembly/fib_with_carry/kyles-solution/fib-kyle.s:60-63 | sum and carry together are the exact sum |
| Words.Subtract | assembly/170d/assembly-inclass/div128.s:59-60 | difference and borrow together are the exact difference |
| Words.Bsr | assembly/170d/assembly-inclass/div128.s:37 | the index of the leading one bit: the power of two at or below the word, less than a factor of two away |
| Div128.Div | assembly/170d/assembly-inclass/div128.s:114 | the hardware division: an exception, or quotient and remainder that fit their registers |
| Div128.PeelDivides | assembly/170d/assembly-inclass/div128.s:56-79 | shift and subtract started from d shifted by k loses nothing for any k, and ends with a remainder below d if and only if the dividend was below d shifted by k + 1 |
| Div128.TurnPeels | assembly/170d/assembly-inclass/div128.s:57-76 | one turn of the register loop, carries included, is one turn of shift and subtract |
| Div128.ShiftAndSubtract | assembly/170d/assembly-inclass/div128.s:56-88 | the loop over the registers computes shift and subtract on the double words |
| Div128.ForwardShift | assembly/170d/assembly-inclass/div128.s:48-79 | for every distance that is not negative the division is right exactly when the dividend is below the divisor shifted one further |
| Div128.ForwardResult | assembly/170d/assembly-inclass/div128.s:48-79 | and always leaves q*d + r = n with q the quotient, or as many ones as turns if it does not fit them |
| Div128.CommentedDistance | assembly/170d/assembly-inclass/div128.s:42-48 | the distance between the leading bits of dividend and divisor always meets that condition |
| Div128.BackwardShift | assembly/170d/assembly-inclass/div128.s:48-79 | a negative distance always gives a wrong result |
| Div128.WrongAsWritten | assembly/170d/assembly-inclass/div128.s:43 | the routine as written divides 2^66 by 2^64 + 1 into 1 with remainder 3 * 2^64 - 1, where the quotient is 3 |
| Div128.Simple | assembly/170d/assembly-inclass/div128.s:104-143 | for a one-word divisor the result divides, no hardware division overflows, and the exception comes for zero only |
| Div128.Large | assembly/170d/assembly-inclass/div128.s:40-89 | for a two-word divisor and any scanned bit index the result is right if and only if the condition Fits holds, and otherwise exactly the capped quotient with the rest, or one subtraction of the wrapped shift |
| Div128.Udivmodti4 | assembly/170d/assembly-inclass/div128.s:27-143 | the exception comes exactly for a zero divisor; with the commented register q*d + r = n and r < d for all other operands; with the written one exactly under a condition on the operands, with the result fixed where it fails too, or nothing is defined exactly where it scans a zero word |
| FibCarry.PassAdds | assembly/fib_with_carry/fib_with_carry.s:50-118 | a lazy pass adds exactly, keeps the old sum, and reports too large exactly from 2^192 on, if and only if it does not stop short of a limb in use |
| FibCarry.NeverSkips | assembly/fib_with_carry/fib_with_carry.s:66-93 | states holding consecutive Fibonacci numbers never make a pass stop short |
| FibCarry.PassHolds | assembly/fib_with_carry/fib_with_carry.s:50-118 | from Fib(n) and Fib(n - 1) a pass leads to Fib(n + 1) and Fib(n), or to the report exactly when Fib(n + 1) needs a fourth limb |
| FibCarry.LazyFib.Pass | assembly/fib_with_carry/fib_with_carry.s:50-118 | the instructions on the memory variables compute the pass, and count one |
| FibCarry.PrintsPlainly | assembly/fib_with_carry/fib_with_carry.s:66-118 | whatever the memory, what a pass prints does not lead with a zero limb |
| FibCarry.Run | assembly/fib_with_carry/fib_with_carry.s:50-154 | for every count asked for, line k shows exactly Fib(k), without a leading zero limb, up to the first one that does not fit three, which is reported and ends the run |
| FibTable.SecondLimbs | assembly/fib_with_carry/fib_with_carry.s:66-70 | no Fibonacci number of two or three limbs has a second limb of zero, which the jump at line 70 would take for an unused one |
| FibFour.TurnAdds | assembly/fib_with_carry/kyles-solution/fib-kyle.s:57-63 | exchange and carry chain leave the old sum in the alternates and the sum modulo 2^256 in the primaries |
| FibFour.Loop | assembly/fib_with_carry/kyles-solution/fib-kyle.s:42-65 | for every count n the primaries end as Fib(n) modulo 2^256 and the alternates as the number before |
| FibFour.NothingLost | assembly/fib_with_carry/kyles-solution/fib-kyle.s:25-26 | up to the 300 the program accepts the number fits the four limbs |
| FibFour.PrintHex | assembly/fib_with_carry/kyles-solution/fib-kyle.s:67-135 | for every accepted count the limbs handed to the format picked by the count show Fib(n); it leaves out no limb in use and leads with no zero limb |
| FibFour.HexArguments | assembly/fib_with_carry/kyles-solution/fib-kyle.s:115-135 | the exchanges bring the limbs into the argument registers most significant first |
| FibFour.Octal139 | assembly/fib_with_carry/kyles-solution/fib-kyle.s:142-150 | two groups of 48 bits keep the number if and only if it is below 2^112, so for all below 2^96 |
| FibFour.Octal209 | assembly/fib_with_carry/kyles-solution/fib-kyle.s:152-166 | three groups keep it if and only if it is below 2^144 |
| FibFour.PrintOctal | assembly/fib_with_carry/kyles-solution/fib-kyle.s:78-166 | for every count up to 209 the octal digits printed are those of Fib(n), in one, two or three groups by the count, each of which fits sixteen digits and the first of several is not zero |
| Bits.AndMask | assembly/fib_with_carry/kyles-solution/fib-kyle.s:83-144 | masking with k ones is the remainder by 2^k |
| Bits.OrField | assembly/fib_with_carry/kyles-solution/fib-kyle.s:145-148 | or of fields that do not overlap is their sum |
| Checksum.File.SeekEnd | assembly/170d/assembly-inclass/checksum.s:94-102 | a seek before the beginning fails and leaves the offset |
| Checksum.File.Truncate | assembly/170d/assembly-inclass/checksum.s:117-119 | a negative length fails and leaves the file, any other one cuts or extends it with zeros |
| Checksum.File.Read | assembly/170d/assembly-inclass/checksum.s:122-126 | up to two bytes from the offset, fewer only at the end |
| Checksum.File.Write | assembly/170d/assembly-inclass/checksum.s:143-147 | two bytes replaced or appended at the offset |
| Checksum.DoChecksum | assembly/170d/assembly-inclass/checksum.s:121-133 | the loop sums the little-endian words of the whole file modulo 2^16, an odd last byte together with the byte the read before it left behind |
| Checksum.AppendedWord | assembly/170d/assembly-inclass/checksum.s:121-147 | the two bytes appended are, low byte first, the bytes at even places plus 256 times those at odd places, plus 256 times the last but one for an odd length, modulo 2^16 |
| Checksum.Encode | assembly/170d/assembly-inclass/checksum.s:121-147 | the file gains those two bytes at its end |
| Checksum.Decode | assembly/170d/assembly-inclass/checksum.s:94-189 | accepted files lose exactly the checksum, rejected ones of two bytes or more are byte for byte unchanged; and what happens to shorter ones |
| Checksum.AcceptedExactly | assembly/170d/assembly-inclass/checksum.s:94-189 | of two bytes or more exactly the files encoding makes of a payload are accepted; of one byte by its stack bytes alone, which must agree; an empty one when they are zero |
| Checksum.RejectedUnchanged | assembly/170d/assembly-inclass/checksum.s:159-176 | a rejected file is left unchanged if and only if it has two bytes or more, and which bytes a shorter one gains |
| Checksum.StaleUnused | assembly/170d/assembly-inclass/checksum.s:122-131 | uninitialized stack bytes reach the sum only for a file of one byte |
| Checksum.RoundTrip | assembly/170d/assembly-inclass/checksum.s:94-189 | decoding in another run what was encoded accepts and restores it, except that one byte takes equal stale bytes in the two runs |
| Checksum.AlteredTotal | assembly/170d/assembly-inclass/checksum.s:121-133 | replacing a word changes the sum by the difference, the high byte's counted twice before an odd last byte |
| Checksum.AlteredWord | assembly/170d/assembly-inclass/checksum.s:159-176 | altering one aligned word of an encoded file is rejected and left as it is, exactly unless it moves by 128 only the high byte of the word before an odd last byte |
| Checksum.EvenPayload | assembly/170d/assembly-inclass/checksum.s:159-176 | for payloads of even length every such alteration is rejected |
| Checksum.AlteredTail | assembly/170d/assembly-inclass/checksum.s:159-176 | altering an odd last byte is always rejected |
| Decimal128.CharacterTable | assembly/170d/int128printf.c:25-32 | which characters are digits, with which values, and which are separators |
| Decimal128.Collect | assembly/170d/int128printf.c:21-35 | the loop accepts exactly digits and separators, with the value of the digits modulo 2^128, or stops at the first other character with the value before it |
| Decimal128.Mk128 | assembly/170d/int128printf.c:9-41 | for every text: accepted exactly if all after an optional leading minus are among the ten digits, comma, space and dot, then the signed value of the digits modulo 2^128 |
| Decimal128.Print128 | assembly/170d/fibo128.c:45-68 | the recursion emits the grouped digits, leading group first |
| Decimal128.PrintSigned128 | assembly/170d/int128printf.c:45-68 | printing is defined for every value but the least, and then emits the same with a minus sign for a negative one |
| Decimal128.NegationOverflows | assembly/170d/int128printf.c:49-53 | the least value, and no other negative one, stays negative when negated in 128 bits |
| Decimal128.GroupedDigits | assembly/170d/fibo128.c:58-67 | without its separators the printed text is the decimal numeral, no digit lost at a group boundary |
| Decimal128.SeparatorPlaces | assembly/170d/fibo128.c:58-67 | counted from the end, three digits and the separator alternate, and the text begins with a digit |
| Decimal128.MinusSign | assembly/170d/int128printf.c:49-53 | a minus sign leads exactly the negative numbers, before the text of the positive one |
| Decimal128.RoundTrip | assembly/170d/int128printf.c:9-68 | every number printed with any separator of commas, spaces and dots is legible and means that number modulo 2^128 |
| Decimal128.RereadUnsigned | assembly/170d/fibo128.c:9-68 | printing and reading restores every unsigned 128-bit value |
| Decimal128.RereadSigned | assembly/170d/int128printf.c:9-68 | and every signed one whose printing is defined, all but the least, in two's complement |
| Decimal128.PrintFibonacci | assembly/170d/fibo128.c:70-90 | the 185 lines show whole Fibonacci numbers, from Fib(2) on |
| HexString.RotateOnce | assembly/170d/assembly-inclass/fibo.s:253-258 | each rotation brings the next digit to the low end of the register, and the digits already printed behind it |
| HexString.StoreDigit | assembly/170d/assembly-inclass/fibo.s:267-271 | each eight-byte store overwrites ahead, yet the digits before it stay and seven NULs follow it |
| HexString.Bss.HexToString | assembly/170d/assembly-inclass/fibo.s:244-278 | for every value the buffer ends with its sixteen upper-case digits, each by its character, and a NUL behind it; the last store spills over seven bytes of saverax and not the eighth |
| HexString.Convert | assembly/170d/assembly-inclass/fibo.s:199-225 | the comparisons accept exactly the digits of either case and the subtractions give their value |
| HexString.DigitTable | assembly/170d/assembly-inclass/fibo.s:199-271 | which character each digit value is printed as, and that both cases of it read as that value |
| HexString.OnlyDigits | assembly/170d/assembly-inclass/fibo.s:199-217 | no other byte is read as a digit |
| HexString.CaseDoesNotMatter | assembly/170d/assembly-inclass/fibo.s:212-219 | reading any memory with its lower-case digits raised to upper case gives the same |
| HexString.StringToHex | assembly/170d/assembly-inclass/fibo.s:190-237 | every terminated string of digits of either case gives its value modulo 2^64, every other one -1 |
| HexString.Bss.Reread | assembly/170d/assembly-inclass/fibo.s:190-278 | reading the buffer that printing left restores every 64-bit value |

## Left out

- Allocation failure and failing calls of the thread library: taken to succeed.
- NULL arguments of the public functions: they return at once; non-null types stand for the rest.
- The AVL tree's own mutex: each operation but the level-order walk is one critical section, so one at a time is modelled; `avl_level_order` takes no lock, and concurrent changes under it are not modelled.
- The C widths of heights, counts and comparison results: unbounded integers, as no tree that fits in memory reaches them.
- Freeing of nodes, cells and queues: an unreachable object stands for a freed one.
- Printing of trees, pre- and post-order visits, destruction of whole trees: they would only add easy members.
- ThreadPool.CanEnqueue: clients may not call into a pool shutdown has begun to take apart, nor be inside a call then; the code leaves that to its callers.
- The scheduler: termination is that every run is bounded and none stuck before the end, not a bound in time; tasks are taken to finish.
- Div128.Udivmodti4: always returns the remainder, where the code stores it only through a pointer that is not null.
- AvlObject.AvlTree.Insert: says nothing of the object once the program has ended on a NULL dereference.
- Decimal128.PrintSigned128: says nothing of the output for the least value, because C leaves its negation undefined.
- HexString.Bss: the two reservations of the data section are taken to lie behind each other as declared.
- The labels printed with the Fibonacci numbers, and the text of all messages.
- `.OLT278` and `.OLT347` of the four-limb program: their shifts and masks do not regroup the limbs.
- Argument parsing of all programs, and the main loop of `fibo.s`: easy beside what they call.
- Short reads and writes of regular files, and other processes changing the file.
- The linked-list library: its insertions at the back do not keep `tail`, so there is no invariant to prove; the tree's own queue is the verified one.
- The other checksum program, rot and coder programs, factorials, sockets, signals and the remaining exercises: single loops or input and output.
