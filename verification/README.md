# libckit data structures: models and proofs

libckit is a kit of C data structures that work through pointers: a red-black tree, a
reference-counted hash table with a lock per slot, a binary heap whose items know their own
index, a timer queue on that heap, a pool of reference-counted buffers, intrusive circular
lists, an sdbm hash and time arithmetic. This project models them over an explicit heap, or as
state machines of threads where the claim is about threads, and proves what they keep. Where
the text does not do what it is for, it is modelled as it stands with the exact condition under
which it works, and a repaired version beside it carries the theorem. Nothing was executed.

`dafny verify dfyconfig.toml` checks everything.

## Files

| file | contents |
|---|---|
| `Basics.dfy` | what several modules share |
| `RbShape.dfy` | nodes, trees as values, and when the links of nodes spell out a tree |
| `Morris.dfy` | the threaded traversal, as written |
| `RbSpec.dfy` | insertion as a function on trees with a hole; order, colours, black counts, height |
| `RbInsert.dfy` | the descent as written; rotations, the five cases and the insertion, repaired |
| `RbAsWritten.dfy` | the rotations, cases and insertion as written, with the exact condition under which they work |
| `Keys.dfy` | the default comparison and where it is an order |
| `List.dfy` | the intrusive circular lists |
| `HashTable.dfy` | the hash table on these lists, one caller at a time |
| `HashProtocol.dfy` | the hash table as steps of any number of threads |
| `HashRuns.dfy` | the counters of the slots, and unhashing what is not linked |
| `HashCalls.dfy` | every interleaving as operations on one map |
| `HashRefs.dfy` | who has been given references to what, and what a lookup hands out |
| `HashProgress.dfy` | locks are given back, nobody waits for ever, calls come to an end; calls that nobody disturbs |
| `HeapSpec.dfy`, `Heap.dfy` | heap order on sequences; the heap on an array of items, as written and repaired |
| `Time.dfy`, `Timer.dfy` | time arithmetic; the timer queue on the repaired heap |
| `PoolProtocol.dfy` | the buffer pool as steps of any number of threads |
| `PoolRuns.dfy` | who holds what in the pool, what allocating and freeing do, and that calls come to an end |
| `Sdbm.dfy` | the hash as a polynomial modulo the word size |

## Where the text falls short

| source | what happens | what is proved about the text | an input that shows it |
|---|---|---|---|
| src/rbtree.c:204, 219, 234, 249 | a rotation leaves the old parent link on the subtree it moves | part of `RbAsWritten.RotationSound`, which holds if and only if the result is a valid tree | `RbAsWritten.MovedSubtree`: all sides agree, and this link alone is wrong |
| src/rbtree.c:265-269 | case 5 chooses the rotation by the side of `node`, not by the side of its grandparent | likewise | `RbAsWritten.WrongSide` |
| src/rbtree.c:201, 216, 231, 246 | a rotation at the root follows a null parent | it faults if and only if the grandparent has no parent where the recolouring stops (`RbAsWritten.Insert`) | `RbAsWritten.ThirdIncreasing`: three increasing keys |
| src/rbtree.c:14-20 | keys of unequal length compare as 1 or 0, never below zero | an order exactly on keys of one length (`Keys.DefaultCompOrders`), where it is the order of byte strings (`Keys.DefaultCompIs`) | any two keys of unequal length |
| src/hashtable.c:23-48 | size 0 gets past the allocation, and the loop then writes beyond the table | it faults if and only if memory is there and the size is 0 (`HashTable.HashtableInit`) | size 0 |
| src/hashtable.c:34 | the count starts at 1, while include/ckit/hashtable.h:69 promises the number of elements | always one too many (`HashProtocol.CountIsOneTooMany`) | any table |
| src/hashtable.c:172-189 | hashtable_unhash does not ask whether the element is linked | the table is valid afterwards (`HashTable.HashTable.Unhash`), and the accounts of all threads are right (`HashRuns.UnhashNeedsLink`), if and only if it was | `HashRuns.UnhashTwice`: after two calls one after the other, the only holder's element was freed |
| src/hashtable.c:201-208 | hashelm_put reads `ht`, which hashelm_init does not set | it faults if and only if the count reaches zero on an element that was never hashed (`HashTable.HashElm.Put`) | such an element; in a run, `HashRuns.UnhashFaults` |
| src/heap.c:120 | the operands of the comparison are reversed | heap order survives exactly if the heap was empty or the item ties with its parent (`Heap.Heap.InsertAsWritten`) | `HeapSpec.InsertFails`: 2 after 1 |
| src/heap.c:143-144 | the item that fills a gap is not told its index unless it sifts down | back-pointers survive exactly if it does, or if the last item was removed (`Heap.Heap.RemoveAsWritten`) | `Heap.ForgottenIndex`: the second of three items |
| src/heap.c:144 | the item that fills a gap never rises | heap order survives exactly if it is not less than the parent of the gap (`Heap.Heap.RemoveAsWritten`) | `HeapSpec.RemoveFails` |
| src/timer.c:146-171 | timer_del trusts the index of a timer that is not scheduled, which is 0 | it then removes the front of the queue, whatever that is (`Timer.TimerQueue.TimerDel`) | any timer that is not scheduled |
| include/ckit/hash.h:24-32 | a signed `char` above 127 enters the hash as a negative number | exactly when the string hashes like its bytes (`Sdbm.StringAgrees`) | `Sdbm.OneUpperNever`: any string with one such byte |

## Model

| member | source | states |
|---|---|---|
| Morris.PrintInOrder | src/rbtree.c:400-431 | on any finite tree the loop ends, visits the in-order sequence, restores every right link, and takes exactly n + (nodes with a left child) turns and 2n - 2(spine + left children) advances of `prev` |
| Morris.Predecessor | src/rbtree.c:415-418 | amid the threads, the inner loop stops at the last node of the left subtree, and tells a first from a second arrival |
| Morris.Arrive | src/rbtree.c:409-420 | what the links of the current node mean at every turn: an untouched left subtree, or one whose thread leads back |
| Morris.EnterLeft | src/rbtree.c:420-422 | laying a thread keeps the invariant of the traversal and what is still to be printed |
| Morris.Resume | src/rbtree.c:423-428 | taking a thread back restores the link, and continues with the right subtree |
| Morris.VisitFirst | src/rbtree.c:410-413 | a node without left child is next in order, and its right link or thread leads to what follows |
| Morris.RestoredShape | src/rbtree.c:424 | once the recorded links are back, the nodes spell out the tree of the beginning |
| Morris.Costs | src/rbtree.c:409-430 | both costs are at most 2n for a tree of n nodes |
| RbSpec.DescendPlace | src/rbtree.c:116-150 | in a sorted tree the descent of an insertion ends after every entry not greater than the key and before every greater one |
| RbSpec.BstInserted | src/rbtree.c:95-159 | a leaf put there makes the in-order sequence a + [n] + b, sorted, with a not greater and b greater than the new key |
| RbInsert.BstInsert | src/rbtree.c:95-159 | as written: exactly the empty link found by the descent changes, and a failed allocation changes nothing |
| RbSpec.RotatedInOrder | src/rbtree.c:192-252 | a rotation keeps the in-order sequence |
| RbSpec.LocalInOrder | src/rbtree.c:256-307 | cases 3, 4 and 5 keep the in-order sequence below the grandparent |
| RbSpec.FixUpInOrder | src/rbtree.c:256-328 | the whole fix-up keeps the in-order sequence |
| RbSpec.FixUpRedBlack | src/rbtree.c:256-328 | a red subtree whose only fault may be a red parent ends up in a red-black tree with the same black count everywhere |
| RbSpec.InsertedRedBlack | src/rbtree.c:330-350 | for any comparator, insertion keeps black root, no red pair and equal black counts, and adds one entry to the in-order sequence |
| RbSpec.InsertedSorted | src/rbtree.c:330-350 | with an ordering comparator the sequence stays sorted and equal keys keep their order of arrival |
| RbSpec.HeightBound | src/rbtree.c:116-150 | 2^(height/2) <= n + 1 in a red-black tree, and the descent is no longer than the height |
| RbInsert.RotateRight | src/rbtree.c:192-222 | repaired: every child and parent link and the root describe the rotated tree, and the surroundings are as before |
| RbInsert.RotateLeft | src/rbtree.c:224-252 | repaired: the same for the left rotation |
| RbInsert.InsertCase5 | src/rbtree.c:256-270 | repaired: the nodes form the tree with the parent hoisted above the grandparent |
| RbInsert.InsertCase4 | src/rbtree.c:272-289 | repaired: straightening and hoisting, as on trees |
| RbInsert.InsertCase3 | src/rbtree.c:291-307 | repaired: the recursion, which climbs two levels, ends with the fixed tree |
| RbInsert.InsertCase1 | src/rbtree.c:318-328 | repaired: from any place in a tree, the nodes end up as the fixed tree |
| RbInsert.Insert | src/rbtree.c:330-350 | repaired: from any valid tree to the valid tree with the key inserted; without memory nothing changes |
| RbAsWritten.RotateRightSideRight | src/rbtree.c:192-207 | as written, below the parent's right side: it faults exactly if there is a child to rise and no parent; the child links keep the in-order sequence; all links are right if the sides agree and the moved subtree is empty |
| RbAsWritten.RotateLeftSideRight | src/rbtree.c:209-222 | as written: the same for a right rotation below the parent's left side |
| RbAsWritten.RotateRightSideLeft | src/rbtree.c:224-237 | as written: the same for a left rotation below the parent's right side |
| RbAsWritten.RotateLeftSideLeft | src/rbtree.c:239-252 | as written: the same for a left rotation below the parent's left side |
| RbAsWritten.InsertCase5 | src/rbtree.c:256-270 | as written: it faults exactly without a great-grandparent; the child links form the hoisted tree; all is well on the assumed side |
| RbAsWritten.InsertCase4 | src/rbtree.c:272-289 | as written: the result is a valid tree if and only if the sides agree and nothing with children is moved |
| RbAsWritten.InsertCase3 | src/rbtree.c:291-307 | as written, from any place: it follows a null parent if and only if the rotation that is needed where the recolouring stops is at the root; if it does not, the nodes form a valid tree if and only if no rotation is needed or that one is sound |
| RbAsWritten.Insert | src/rbtree.c:330-350 | as written: it faults under exactly that condition on the tree before; if it does not, it returns 1, and the tree is valid afterwards if and only if no rotation is needed or the one needed is sound |
| RbAsWritten.SoundExactly | src/rbtree.c:256-350 | that condition in terms of the tree before: no rotation, or one at once, with a great-grandparent on the same side |
| RbAsWritten.SettleLow | src/rbtree.c:291-307 | after any recolouring, the rotation that is due moves a subtree with a parent link, so that it is not sound |
| RbAsWritten.ThirdIncreasing | src/rbtree.c:228-231 | the third of three increasing keys makes the text follow a null parent |
| RbAsWritten.WrongSide | src/rbtree.c:265-269 | a valid tree and a new key for which case 5, without a fault, links the rotated tree on the wrong side |
| RbAsWritten.MovedSubtree | src/rbtree.c:192-207 | a valid tree and a new key for which there is no fault and all sides agree, and only the parent link of the moved subtree is wrong |
| Keys.DefaultCompIs | src/rbtree.c:14-20 | on keys of one length: negative exactly if the first byte that differs is the lesser one in the first key, zero exactly on equal keys; else 1 if the first is shorter, and 0 if it is longer |
| Keys.DefaultCompOrders | src/rbtree.c:14-20 | the default comparison is a total preorder on a set of keys if and only if they have one length |
| List.ListAddFront | include/ckit/list.h:26-32 | the circle stays well formed and gains the link in front |
| List.ListAddBack | include/ckit/list.h:37-43 | the circle stays well formed and gains the link at the back |
| List.ListDel | include/ckit/list.h:48-53 | exactly that link is gone from the circle, and is left linked to itself |
| List.ListMove | include/ckit/list.h:58-62 | the link leaves its circle and heads the other one, or the same one |
| List.EmptyDecides | include/ckit/list.h:71 | on an anchor list_empty means no elements, on any other link it means not being in a list |
| List.RingUnique | include/ckit/list.h:26-53 | the links determine the sequence |
| List.ListForeach | src/hashtable.c:89-92 | the walk visits the sequence of the circle from front to back |
| HashTable.HashElm.Init | src/hashtable.c:210-215 | the element is in no list and has one reference; `ht`, the key and the hash are left as they were |
| HashTable.HashElm.Put | src/hashtable.c:201-208 | one reference less; freefn, if there is one, is called exactly if the count reaches zero; `ht` is read unset exactly if that happens to an element never hashed |
| HashTable.HashtableInit | src/hashtable.c:23-48 | -1 without memory; otherwise the valid table of the empty map with that many slots, or a write beyond the table exactly if the size is 0 |
| HashTable.AndBits | src/hashtable.c:129-133 | a binary digit of `hash & mask` is set exactly if it is set in both |
| HashTable.AndIsRemainder | src/hashtable.c:129-133 | with a power of two for the size the slot is the hash modulo the size |
| HashTable.HashTable.Scan | src/hashtable.c:157-162 | the scan of a slot finds an element with the key if and only if there is one |
| HashTable.HashTable.Lookup | src/hashtable.c:217-237 | get on a finite map; the element found, and no other, gains a reference |
| HashTable.HashTable.Hash | src/hashtable.c:140-170 | insert-if-absent on the map, refused exactly if the element is linked or the key taken; all lists, counts and links stay consistent |
| HashTable.HashTable.Unhash | src/hashtable.c:172-189 | for any element, linked here or in no list: the table is valid afterwards if and only if it was linked, and then this is removal from the map; one reference less, freed exactly if that was the last |
| HashTable.HashTable.Foreach | src/hashtable.c:74-97 | the action sees every linked element, slot after slot, and the result is their number, or -1 without action |
| HashTable.HashTable.NoneTwice | src/hashtable.c:84-95 | no element is in that sequence twice |
| HashTable.HashTable.Fini | src/hashtable.c:50-72 | the loops end; every element is unlinked and put once; freefn runs once on those with no other reference; all counts are zero |
| HashProtocol.OtherThread | src/hashtable.c:140-237 | what a thread has established under its lock survives every step of another thread |
| HashProtocol.KeepAdvance | src/hashtable.c:140-237 | every step inside the table's functions keeps the invariant |
| HashProtocol.KeepBegin | src/hashtable.c:140-189 | a call keeps the invariant if and only if it does not unhash an element that is not linked |
| HashProtocol.KeepReference | src/hashtable.c:196-208 | holding, passing on and putting a reference keep the invariant, also the last reference of an element never hashed |
| HashProtocol.InvAlways | src/hashtable.c:140-237 | the invariant holds in every state of every interleaving |
| HashProtocol.Lifetime | src/hashtable.c:172-208 | in every interleaving: refcount = references held + 1 if linked; nothing linked or held was freed; freefn runs at most once, from the step that reaches zero |
| HashProtocol.LinkedAlive | src/hashtable.c:163-166 | a linked element is counted even while it is being linked or unlinked |
| HashProtocol.TouchesOnlyLive | src/hashtable.c:157-208 | no step of the table's functions works on a freed element |
| HashProtocol.CountIsOneTooMany | src/hashtable.c:124-127 | while nobody hashes or unhashes, the count is the number of linked elements plus one |
| HashProtocol.ChangesMap | src/hashtable.c:163-180 | linking inserts an absent key, unlinking removes the element's own key, and no other step changes the map |
| HashCalls.Linearizable | src/hashtable.c:140-237 | in every interleaving there is one sequence of maps, from the empty one on, such that every call of hash, unhash or lookup that returns answers what the map operation answers, and changes the map as it does, at one step between the call's begin and its return |
| HashCalls.HistoryExists | src/hashtable.c:140-237 | at every moment of every interleaving the linked elements are one finite map, which only the linking and unlinking of calls change |
| HashRefs.Ledger | src/hashtable.c:163-237 | in every interleaving, at any moment: the references that a thread holds to an element are those its steps and those of others have given it, less those they have taken; and the count is what the steps have added to it |
| HashRefs.HandsOut | src/hashtable.c:217-237 | when a lookup returns, its own steps have given its thread exactly one reference, counted once, to the element that it returns, or none if it found nothing; until the thread gives one up itself, the element is counted and not freed |
| HashRefs.KeptAlive | src/hashtable.c:196-208 | whatever the other threads do, a reference that its thread keeps stays, and its element is not freed |
| HashProgress.NoDeadlock | src/hashtable.c:140-237 | in every interleaving, while a thread is inside a call, some thread can take a step of one |
| HashProgress.Drains | src/hashtable.c:140-237 | every run can be continued, with nothing new begun, until nobody is inside a call |
| HashProgress.Settled | src/hashtable.c:140-237 | then all locks are free, both kinds of counters are right, each count is the references held plus one if linked, and an element ever hashed was freed once if its count is zero, and else not |
| HashProgress.LookupAlone | src/hashtable.c:217-237 | what a call of hashtable_lookup without interference does to the whole state |
| HashProgress.HashAlone | src/hashtable.c:140-170 | what a call of hashtable_hash without interference does to the whole state, when the key is absent |
| HashProgress.HashAloneTaken | src/hashtable.c:150-162 | the same when the key is taken: only the key and `ht` are stored |
| HashProgress.PutAlone | src/hashtable.c:201-208 | what hashelm_put without interference does: one reference less, and freefn once if it was the last |
| HashRuns.SlotFrozen | src/hashtable.c:153-237 | while a thread has the lock of a slot, nobody else changes what is linked there: the walk over its list may count as one step |
| HashRuns.SlotCounts | src/hashtable.c:153-184 | in every interleaving, while nobody has the lock of a slot for writing, its counter is the number of its linked elements |
| HashRuns.UnhashAlone | src/hashtable.c:172-189 | what a call of hashtable_unhash without interference does, linked or not |
| HashRuns.UnhashNeedsLink | src/hashtable.c:172-189 | the invariant holds after such a call if and only if the element was linked; otherwise the count is one less than the references held, and with one holder the element was freed |
| HashRuns.UnhashFaults | src/hashtable.c:172-208 | on an element never hashed, with one reference, the call ends in the read of `ht` |
| HashRuns.UnhashTwice | src/hashtable.c:172-189 | from a state that hashing leads to, two calls one after the other free the element that the caller still holds |
| HeapSpec.RootLeast | src/heap.c:47-50 | the first entry of a heap is a least one |
| HeapSpec.SiftedOrdered | src/heap.c:57-83 | sift-down makes a heap of a subtree whose children are heaps |
| HeapSpec.SiftedPermutes | src/heap.c:57-83 | sift-down permutes, and leaves everything outside the subtree alone |
| HeapSpec.RaisedOrdered | src/heap.c:119-125 | sift-up, with the comparison repaired, restores the order of the whole heap |
| HeapSpec.InsertedAsWrittenOrdered | src/heap.c:106-132 | as written: heap order survives an insertion if and only if the heap was empty or the entry ties with its parent |
| HeapSpec.InsertedOrdered | src/heap.c:106-132 | repaired: heap order and contents |
| HeapSpec.RemovedAsWrittenOrdered | src/heap.c:134-149 | as written: heap order survives a removal if and only if the entry that fills the gap is not less than the gap's parent, or there is no gap or no parent |
| HeapSpec.RemovedOrdered | src/heap.c:134-149 | repaired: heap order and contents after a removal at any index |
| HeapSpec.DrainedAscending | include/ckit/heap.h:31-34 | removing the first entry again and again, as written, yields a sorted permutation |
| HeapSpec.RunKeeps | src/heap.c:106-149 | after any sequence of repaired insertions and removals there is heap order, and what was put in is what was taken out and what is left |
| HeapSpec.InsertFails | src/heap.c:120 | as written: 2 goes above 1 |
| HeapSpec.RemoveFails | src/heap.c:144 | as written: removing 6 from 1 5 2 6 7 3 leaves 3 below 5 |
| Heap.ForgottenIndex | src/heap.c:143-144 | as written: after the removal of the second of three items there is one with the wrong index |
| Heap.Heap.Heapify | src/heap.c:57-83 | as written: the array becomes the sifted one, and exactly the items that move are told their index |
| Heap.Heap.IncreaseSize | src/heap.c:85-104 | contents are kept; without memory nothing changes |
| Heap.Heap.MoveUp | src/heap.c:119-127 | the loop with its one moving gap computes the repeated exchange, for either comparison, with all indices right |
| Heap.Heap.InsertAsWritten | src/heap.c:106-132 | as written: the heap is valid afterwards if and only if it was empty or the item ties with its parent; without memory nothing changes |
| Heap.Heap.Insert | src/heap.c:106-132 | repaired: heap order, back-pointers, active flags and contents; the capacity grows by 100 exactly if it was full and there is memory |
| Heap.Heap.RemoveAsWritten | src/heap.c:134-149 | as written: exactly when the back-pointers survive, and exactly when the order does; a bad index changes nothing |
| Heap.Heap.Remove | src/heap.c:134-149 | repaired: heap order, back-pointers and active flags; exactly the item at the index leaves |
| Heap.Heap.FrontLeast | src/heap.c:47-50 | no stored item is less than the front |
| Time.NormalizeExact | include/ckit/time.h:15-23 | one carry keeps the value and gives a normal stamp if and only if the fraction is less than a second out of range |
| Time.AddFracExact | include/ckit/time.h:25-29 | adding units, negative ones too, with truncating division, is exact and normal; so is subtracting microseconds (lines 70-74) |
| Time.AddSubExact | include/ckit/time.h:31-41 | sums and differences are exact and normal |
| Time.TimeCell.PlusFrac | include/ckit/time.h:25-29 | in place: the stored time is n units later, exactly and in normal form |
| Time.TimeCell.MinusFrac | include/ckit/time.h:70-74 | in place: the stored time is n units earlier, exactly and in normal form |
| Time.TimeCell.Plus | include/ckit/time.h:31-35 | in place: the exact sum of the old values, also when a time is added to itself |
| Time.TimeCell.Minus | include/ckit/time.h:37-41 | in place: the exact difference of the old values, also when a time is subtracted from itself |
| Time.LtIsOrder | include/ckit/time.h:43-51 | the comparisons are those of total units, and the sign is that of the seconds |
| Timer.EarlierIsOrder | src/timer.c:42-47 | the comparison of timers meets what the heap asks of it |
| Timer.TimerQueue.TimerDel | src/timer.c:146-171 | it removes a scheduled timer and no other; of one that is not scheduled it removes the front of the queue instead |
| Timer.TimerQueue.TimerMod | src/timer.c:109-141 | the timer is scheduled at now + its interval; the given interval is stored only if it was scheduled; other timers are untouched |
| Timer.TimerQueue.TimerAdd | src/timer.c:158-164 | a scheduled timer is refused and unchanged, any other one is scheduled at now + its interval, with result 1, unless there is no memory |
| Timer.TimerQueue.TimerNextTimeout | src/timer.c:200-225 | max(0, least deadline - now), in normal form, or 0 if nothing is scheduled |
| Timer.TimerQueue.TimerHandleTimeout | src/timer.c:241-260 | a timer of least deadline leaves the queue, and only that one |
| Timer.TimerQueue.TimerListDestroy | src/timer.c:262-278 | every scheduled timer is handed out once, by deadline, and the queue is empty |
| PoolProtocol.InvStart | src/pbuf.c:28-43 | the pool after its initialisation |
| PoolProtocol.OnStep | src/pbuf.c:57-104 | every step of every thread keeps the invariant of the pool |
| PoolProtocol.InvAlways | src/pbuf.c:28-104 | the invariant holds in every state of every interleaving |
| PoolProtocol.PoolIsKept | src/pbuf.c:57-89 | in every interleaving: each entry is on exactly one list, once; the lengths sum to the pool size; free entries have count 0 and no holder; an entry that nobody works on is free exactly if nobody holds it; no entry comes back more often than it was handed out |
| PoolProtocol.HandsOutUnused | src/pbuf.c:66-72 | what is handed out is held by nobody, its new holder has the only reference, and allocation fails only if nothing is free |
| PoolProtocol.CountsReferences | src/pbuf.c:79-89 | outside the pool's own functions, an entry's count is the number of references held |
| PoolRuns.Ledger | src/pbuf.c:57-89 | in every interleaving, at any moment, the references that a thread holds to an entry are those that steps have given it, less those they have taken |
| PoolRuns.FreeAlone | src/pbuf.c:79-89 | pbuf_free without interference: one reference and one count less, and nothing else, unless it was the last; then the entry leaves the use list and heads the free list, and the mutex is free again |
| PoolRuns.AllocAlone | src/pbuf.c:57-77 | pbuf_alloc without interference: the first free entry heads the use list, with one reference, which the caller has |
| PoolRuns.AllocFails | src/pbuf.c:57-77 | without a free entry it returns NULL and changes nothing |
| PoolRuns.AllocThenFree | src/pbuf.c:57-89 | an allocation and then the release put lists, counts and holders back as they were |
| PoolRuns.CopyAlone | src/pbuf.c:91-104 | pbuf_copy sets right the count that came over with the bytes of the other buffer, and changes nothing else of the pool |
| PoolRuns.NoDeadlock | src/pbuf.c:57-104 | in every interleaving, while a thread is inside a call, some thread can take a step of one |
| PoolRuns.Drains | src/pbuf.c:57-104 | every run can be continued, with nothing new begun, until nobody is inside a call |
| PoolRuns.Settled | src/pbuf.c:57-104 | then the mutex is free, counts are references, and exactly the entries that nobody holds are free |
| Sdbm.PartialByteHashIs | include/ckit/hash.h:8-11 | shifts, sum and difference with wrap-around are c + 65599 * hash modulo the word size |
| Sdbm.PolySnoc | include/ckit/hash.h:8-11 | one more byte multiplies the polynomial by 65599 and adds |
| Sdbm.ByteArrayHash | include/ckit/hash.h:13-22 | the word of w bits congruent to the sum of b[i] * 65599^(n-1-i) modulo 2^w, for any width |
| Sdbm.HashAppend | include/ckit/hash.h:13-22 | H(a ++ b) = H(a) * 65599^\|b\| + H(b) |
| Sdbm.StringHash | include/ckit/hash.h:24-32 | the same sum over the characters before the first NUL, for signed and unsigned char |
| Sdbm.StringAgrees | include/ckit/hash.h:24-32 | exactly when string_hash agrees with byte_array_hash; bytes of 1 to 127 always do |
| Sdbm.OneUpperNever | include/ckit/hash.h:24-32 | with signed char, a string with exactly one byte above 127 never hashes like its bytes, in words of more than 8 bits |

## Left out

- Overflow: integers are unbounded in the heap, the time arithmetic, the counts and the lengths; the hash has its word size as a parameter.
- Raw memory: objects are references, and the object around a link or a heap item is a field instead of address arithmetic. Failed allocation is an argument of hashtable_init and of insertion into the tree and into the heap; the initialisation of the heap and of the pool (src/heap.c:24-27, src/pbuf.c:34-37) is modelled with memory available.
- HashTable.HashtableInit: with a size that is not a power of two the slots that `hash & mask` never names just stay empty; nothing is promised about their use.
- Weak memory: every atomic builtin, lock operation and piece of work under a lock is one sequentially consistent step.
- HashProtocol: `hashfn` followed by the mask is one function from keys to slots there, freefn is present, the list of a slot is the set of its linked elements (`HashTable` has the links), and hashtable_fini, hashtable_foreach, hashtable_foreach_read and __hashtable_unhash are not steps; that callers put only references they hold, and that two threads do not hash or unhash one element at once, is part of the model.
- HashCalls.Linearizable: is about calls that take the lock; hashtable_hash of an element that is already linked returns -1 at once and touches nothing (src/hashtable.c:143-146). A lookup that fails is told by the state before its return.
- HashProgress.NoDeadlock: freefn returns and does not call the table; hashtable_foreach, which calls its action under a slot's lock, is not a step, so an action that calls the table is not covered. No fairness is assumed: somebody can go on, and Drains lets the threads run in an order that ends.
- HashProgress.Settled: a thread whose hashelm_put read an unset `ht` counts as outside a call.
- HashTable.HashTable.Unhash: an element that is linked in another table is not modelled.
- HashTable.HashTable.Foreach: the action is a recorded visit; actions that unlink elements are not modelled.
- HashTable.HashTable.Fini: ends with the emptied table; releasing the memory of the slots is not modelled.
- PoolProtocol: the lists are sequences there (List has their links), and the bytes of a buffer, the control block and the moving window (src/pbuf.c:109-158, linear arithmetic on four fields) are not modelled. pbuf_pool_cleanup is not a step.
- rb_tree_insert (src/rbtree.c:352-371) calls itself instead of _rb_tree_insert and never ends; rb_tree_delete (src/rbtree.c:373-376) is a stub; `tree->size`, the `debug` field, values, copying of keys, and rb_tree_destroy are not modelled.
- Timer.TimerQueue.Schedule: the times inside a timer are values computed by the functions of `Time`, which `Time.TimeCell` computes in place.
- Timer.TimerQueue.TimerNextTimeout: the clock is an argument, the variants in microseconds and as struct timeval are not modelled, and neither are raising and lowering the signal, callbacks and destructors.
- src/event_epoll.c, src/event_kqueue.c, src/signal.c, src/log.c, src/debug.c: wrappers over the operating system, and output.
