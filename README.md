# In-place priority queue and sorted list, modelled in Dafny

This project models the two fixed-capacity containers of the `inplace-sort`
repository. Both keep their elements in an array of `N` slots (an arena),
and each slot holds a possibly uninitialised value and a `next` index. Two
singly linked lists run through the slots: the live list and the free list.

- `PriorityQueue<T, N>` (priority_queue/src/lib.rs, with the slot type of
  priority_queue/src/node.rs) appends on `insert` in constant time and keeps
  a cached pointer to a minimum. `pop` makes one forward pass over the live
  list. The pass finds the last least node, unlinks it, returns its slot to
  the free list, and caches the runner-up of the pass as the new minimum.
- `Sorted<S, T>` (sort/src/lib.rs) keeps the live list ascending. `insert`
  walks from the head and links the value in before the first strictly
  greater one. `pop` and `peek` take the head.

The model is imperative where the source is. Each container is a Dafny
`class` with the array and the head, tail, free and min pointers as fields.
Ghost sequences `live` and `freeList` name the slots of the two lists in link
order. A `Valid()` predicate ties those sequences to the array. The two lists
partition the slots, every link is the next entry of its list, and every live
slot holds a value. `Values()` is the sequence of live values in list order.
Every operation that changes state is a `method`. The read-only `min_ref`,
`peek` and `peek_at` are functions, and `min` is a method that only reads.
The source's loops are loops with invariants: `while` loops for the queue's
`new` and `pop` and the sorted list's `insert`, and a `for` loop for the
sorted list's `new`. The
`ensures` of each public operation that changes state gives the new lists,
the new array contents and the new values as functions of the old state.
The scenario steps state only the lists and values they need.

Modules:

- `Wrappers`: `Option` and `Result`.
- `NodeSlot`: the slot type, `NodePtr = u16` as a subset type, and
  `Node::new` and `Node::new_uninit`. `MaybeUninit<T>` is an `Option<T>`, and
  `Read` demands a written cell.
- `Arena`: the shared invariant, and lemmas for each list operation:
  - threading a fresh arena onto the free list;
  - allocating the free head into position p;
  - appending;
  - unlinking position k onto the free list.
- `PopScan`: the single pass of `pop`, stated on the sequence of live values.
  It is defined as written (`Select`) and corrected (`SelectFixed`), with
  the invariants each pass keeps.
- `PriorityQueue`: the queue class, covering `new`, `insert`, `pop`,
  `min_ref` and `min`, plus `insert` and `pop` as written (see Findings).
- `PriorityQueueScenarios`: the `reinsert` and `duplicate_values` runs of
  priority_queue/src/tests/mod.rs on a queue of five slots, and the run
  that exposes the stale minimum.
- `Sort`: the sorted-list class, and the `Position` where `insert` links a
  value. Lemmas state that inserting keeps the list ascending and adds exactly
  the value, so the list sorts whatever is inserted.
- `SortScenarios`: the three unit tests at the end of sort/src/lib.rs on a
  list of three slots.

`T` is `int` in both containers. The source's `<` and `<=` on `PartialOrd`
become the integer comparisons.

In the seed of `pop`'s pass the head wins a tie (lib.rs:335). The loop then
compares the head's successor again with `<=` (lib.rs:385), so among equal
minima the last one in the list is removed. `PopScan.SelectIsLastLeast`
states this.

## Model

| member | source | states |
|---|---|---|
| NodeSlot.New | priority_queue/src/node.rs:12-18 | a new slot holds the given value, readable, and links to the given pointer |
| NodeSlot.NewUninit | priority_queue/src/node.rs:20-26 | a fresh slot has no readable value and links to nothing |
| Arena.Range | priority_queue/src/lib.rs:220-228 | the free list of a fresh arena is the indices 0 .. n-1 in order |
| Arena.ValuesOf | priority_queue/src/lib.rs:134-139 | the live values are the slot values read along the list, one per live slot |
| Arena.Threaded | priority_queue/src/lib.rs:218-228 | an arena whose slot i links to i + 1 and whose last slot links to nothing is valid, with every slot free and the live list empty |
| Arena.PartitionAllocate | priority_queue/src/lib.rs:261-265 | moving the free-list head into the live list at any position keeps every slot on exactly one list |
| Arena.PartitionRelease | priority_queue/src/lib.rs:413-415 | moving a live slot to the front of the free list keeps every slot on exactly one list |
| Arena.LinkedFrame | priority_queue/src/lib.rs:268-272 | a list stays linked when no link of its own slots changes |
| Arena.LinkedTail | priority_queue/src/lib.rs:263-265 | the free list minus its head is still linked |
| Arena.LinkIn | sort/src/lib.rs:77-79 | writing a slot with the link to position p and pointing the entry before p at it links the slot in at p |
| Arena.LinkInValues | sort/src/lib.rs:77-79 | the live values then gain the written value at position p |
| Arena.LinkInBefore | sort/src/lib.rs:77-79 | entries before p keep their place and their link in the new list |
| Arena.LinkInAfter | sort/src/lib.rs:77-79 | entries from p on move up one place and keep their link |
| Arena.LinkOut | priority_queue/src/lib.rs:398-406 | pointing the predecessor of position k past it leaves the other live slots linked |
| Arena.LinkOutValues | priority_queue/src/lib.rs:397-406 | the live values then lose exactly position k |
| Arena.Allocate | sort/src/lib.rs:77-79 | taking the free head, writing v into it and linking it in at p keeps the arena valid, and the values gain v at p |
| Arena.Release | priority_queue/src/lib.rs:397-415 | unlinking live position k and pushing its slot onto the free list keeps the arena valid, and the values lose position k |
| Arena.Appended | priority_queue/src/lib.rs:263-291 | the slots after `insert` appends v: the free head holds v with no link, the old last live slot links to it, and no other slot changes |
| Arena.Inserted | sort/src/lib.rs:63-81 | the slots after `insert_first` or `insert_at` at position p: the free head holds v and links to the entry that was at p, the entry before p links to it, and no other slot changes |
| Arena.Unlinked | priority_queue/src/lib.rs:397-415 | the slots after `pop` unlinks position k: the predecessor takes over the slot's link, the slot links to the old free head, and no other slot changes |
| Arena.Append | priority_queue/src/lib.rs:263-291 | allocating the free head, linking the tail to it and writing v keeps the arena valid, and the values gain v at the end |
| Arena.Unlink | sort/src/lib.rs:33-39 | the unlink-and-free step of both `pop`s keeps the arena valid and removes position k from the values |
| Arena.LinksInside | priority_queue/src/lib.rs:118-145 | in a valid arena every link names a slot of the arena, so the unchecked index reads stay in bounds |
| Arena.InsertInto | sort/src/lib.rs:63-81 | `insert_first` and `insert_at` at position p keep the arena valid, and the values gain v at p |
| Arena.InsertAtIndex | sort/src/lib.rs:63-81 | inserting at p shifts the later entries up one and adds exactly one occurrence of the value |
| Arena.RemoveAtIndex | priority_queue/src/lib.rs:397-415 | removing position k shifts the later entries down one and removes exactly one occurrence |
| PopScan.Seed | priority_queue/src/lib.rs:334-339 | the seed takes the first two positions, the candidate holding the smaller value with the head winning a tie, and the predecessor on the head |
| PopScan.Step | priority_queue/src/lib.rs:385-392 | one comparison as written never makes the candidate worse; when the candidate moves to the cursor's successor the old candidate becomes runner-up and the cursor the predecessor, and otherwise nothing changes, the runner-up included |
| PopScan.StepFixed | priority_queue/src/lib.rs:385-392 | the corrected comparison moves the candidate the same way, and when the candidate stays it keeps the predecessor and never makes the runner-up worse |
| PopScan.Select | priority_queue/src/lib.rs:379-381 | the state at the end of the pass as written names positions of the list, with distinct candidate and runner-up |
| PopScan.SelectFixed | priority_queue/src/lib.rs:379-381 | the same for the corrected pass |
| PopScan.ScanTo | priority_queue/src/lib.rs:334-392 | the pass as written never names a position it has not reached, and the candidate and runner-up differ |
| PopScan.ScanToFixed | priority_queue/src/lib.rs:334-392 | the same for the corrected pass |
| PopScan.SeedInvariant | priority_queue/src/lib.rs:334-339 | the seed's candidate is the least of the first two values and its runner-up the other |
| PopScan.StepKeepsLeast | priority_queue/src/lib.rs:385-389 | one `<=` comparison keeps the candidate a least value seen, strictly below every later value seen, with its predecessor tracked |
| PopScan.StepFixedKeepsRunnerUp | priority_queue/src/lib.rs:385-389 | the corrected comparison also keeps the runner-up least among the values seen other than the candidate |
| PopScan.StepsAgree | priority_queue/src/lib.rs:385-389 | the correction never changes which node becomes the candidate or its predecessor |
| PopScan.ScanInvariant | priority_queue/src/lib.rs:367-395 | the pass as written keeps the candidate invariant up to the tail |
| PopScan.FixedAgreesOnMin | priority_queue/src/lib.rs:367-395 | the corrected pass removes the same node with the same predecessor as the pass as written |
| PopScan.ScanFixedInvariant | priority_queue/src/lib.rs:367-395 | the corrected pass keeps both the candidate and the runner-up invariant up to the tail |
| PopScan.SelectIsLastLeast | priority_queue/src/lib.rs:383-389 | `pop` removes the last position holding a least value, and its predecessor is the position before it |
| PopScan.SelectFixedRunnerUp | priority_queue/src/lib.rs:418 | with the correction, the node cached as minimum after the removal holds a least value of what remains |
| PopScan.Victim | priority_queue/src/lib.rs:341-395 | the position `pop` removes holds a value no greater than any other and strictly less than every later one |
| PopScan.StaleRunnerUp | priority_queue/src/lib.rs:385-389 | for the values 1, 5, 3 the pass as written caches 5 as runner-up while the corrected pass caches 3 |
| PopScan.DuplicateMinima | priority_queue/src/tests/mod.rs:253-269 | for 100, 200, 100 both passes remove the second 100 and cache the first |
| PriorityQueue.RunnerUpIsLeast | priority_queue/src/lib.rs:418 | a value least among all but the removed position is least of what remains |
| PriorityQueue.TrackStep | priority_queue/src/lib.rs:379-392 | one loop iteration on slots moves the candidate exactly as `Step` moves it on positions, since distinct positions are distinct slots |
| PriorityQueue.TrackStepFixed | priority_queue/src/lib.rs:379-392 | the same for the corrected iteration |
| PriorityQueue.WrittenAsInsert | priority_queue/src/lib.rs:267-291 | the slots after `insert` as written allocated slot `at`: the old tail links to `at` and `at` holds v, or, on an empty queue, slot 0 holds v and `at` is untouched; no other slot changes |
| PriorityQueue.AsWrittenAppends | priority_queue/src/lib.rs:267-291 | `insert` as written writes the same slots as the corrected `insert` when the queue is not empty or the free list starts at slot 0 |
| PriorityQueue.AsWrittenShares | priority_queue/src/lib.rs:283-291 | on an empty queue whose free list `F` does not start at slot 0, `insert` as written writes v into slot 0, the new head, while in the written slots the walk from the new free pointer `F[1]` still reaches slot 0, and the allocated slot `F[0]` is left untouched and on neither list |
| PriorityQueue.PriorityQueue.constructor | priority_queue/src/lib.rs:209-231 | `new` gives a valid empty queue whose free list is every slot in index order, each slot unwritten and linking to the next one (the last to nothing), free pointer at slot 0 and no minimum |
| PriorityQueue.PriorityQueue.MinRef | priority_queue/src/lib.rs:239-243 | `min_ref` is empty exactly on an empty queue, otherwise a stored value; that value is no greater than any other whenever the cached minimum is least (`MinIsLeast`) |
| PriorityQueue.PriorityQueue.Min | priority_queue/src/lib.rs:433-440 | `min` returns the value `min_ref` designates |
| PriorityQueue.PriorityQueue.Insert | priority_queue/src/lib.rs:255-296 | fails with `QueueFull`, changing nothing, exactly when every slot is live; otherwise the free head is appended, the values gain v at the end, the minimum moves only on a strictly smaller v, and a least cached minimum stays least |
| PriorityQueue.PriorityQueue.AppendedValid | priority_queue/src/lib.rs:263-291 | after the append the queue invariant holds and the values gained v at the end |
| PriorityQueue.PriorityQueue.AppendedMin | priority_queue/src/lib.rs:277-287 | after the append the cached minimum is the smaller of the old minimum and v, the old one winning a tie |
| PriorityQueue.PriorityQueue.ValidIndexed | priority_queue/src/lib.rs:240-242 | the invariant guarantees what the unchecked reads rely on: every pointer and link is in bounds, and a tail comes with a written minimum |
| PriorityQueue.PriorityQueue.InsertAsWritten | priority_queue/src/lib.rs:255-296 | `insert` as written: on an empty queue head, tail and minimum become slot 0 and v is written into slot 0, whichever slot was allocated |
| PriorityQueue.PriorityQueue.InsertAsWrittenAppends | priority_queue/src/lib.rs:267-291 | where it agrees with the corrected `insert`, `insert` as written keeps the invariant, writes the slots as `Arena.Appended` does, and appends v |
| PriorityQueue.PriorityQueue.Relist | priority_queue/src/lib.rs:263-291 | the ghost lists after an append describe the slots again |
| PriorityQueue.PriorityQueue.Scan | priority_queue/src/lib.rs:330-395 | the pass as written ends with candidate, runner-up, predecessor and previous cursor on the slots of the positions `Select` computes |
| PriorityQueue.PriorityQueue.ScanFixed | priority_queue/src/lib.rs:330-395 | the corrected pass ends on the slots of the positions `SelectFixed` computes |
| PriorityQueue.PriorityQueue.Unlink | priority_queue/src/lib.rs:397-418 | reading, unlinking and freeing position k keeps the invariant, returns its value, removes it from the values and caches the runner-up |
| PriorityQueue.PriorityQueue.UnlinkedValid | priority_queue/src/lib.rs:400-415 | after the unlink the head, tail and free pointers match the new lists |
| PriorityQueue.PriorityQueue.PoppedLeast | priority_queue/src/lib.rs:418 | a runner-up least among the others leaves a least cached minimum |
| PriorityQueue.PriorityQueue.TakeOnly | priority_queue/src/lib.rs:341-353 | the single-node case returns the only value, frees its slot and clears head, tail and minimum |
| PriorityQueue.PriorityQueue.PopLeast | priority_queue/src/lib.rs:330-418 | on two or more nodes the last least value is removed and returned, its slot goes to the front of the free list with the slots as `Arena.Unlinked` gives them, and the cached minimum is left least |
| PriorityQueue.PriorityQueue.Pop | priority_queue/src/lib.rs:298-424 | `None` on an empty queue, changing nothing; otherwise returns a least value (the last one), removes exactly it, keeps the others in order, moves its slot to the front of the free list with the slots as `Arena.Unlinked` gives them, and leaves a least cached minimum |
| PriorityQueue.PriorityQueue.PopAsWritten | priority_queue/src/lib.rs:298-424 | `pop` as written removes and returns the same value but caches the runner-up of the pass as written |
| PriorityQueueScenarios.Push | priority_queue/src/lib.rs:255-296 | `insert` with room appends the value and keeps a least cached minimum |
| PriorityQueueScenarios.Filled1 | priority_queue/src/tests/mod.rs:380 | one insert into a fresh queue of five fills slot 0 |
| PriorityQueueScenarios.Filled2 | priority_queue/src/tests/mod.rs:381 | a second insert fills slot 1 |
| PriorityQueueScenarios.Filled | priority_queue/src/tests/mod.rs:380-382 | three inserts fill slots 0, 1 and 2 in order |
| PriorityQueueScenarios.StaleMinAsWritten | priority_queue/src/lib.rs:385-418 | after 1, 5, 3, `pop` as written returns 1 and leaves 5 as the minimum while 3 is queued |
| PriorityQueueScenarios.StaleMin | priority_queue/src/lib.rs:385-418 | the corrected `pop` returns 1 and leaves 3 as the minimum |
| PriorityQueueScenarios.Drained1 | priority_queue/src/tests/mod.rs:380-383 | the first pop after 100, 200, 300 returns 100 and frees slot 0 |
| PriorityQueueScenarios.Drained2 | priority_queue/src/tests/mod.rs:384 | the second returns 200 and frees slot 1 |
| PriorityQueueScenarios.Drained | priority_queue/src/tests/mod.rs:385-391 | the third empties the queue with the free list starting at slot 2 |
| PriorityQueueScenarios.Reinsert1 | priority_queue/src/tests/mod.rs:394-398 | the corrected `insert` of 200 makes slot 2 head, tail and minimum, as the test expects |
| PriorityQueueScenarios.Reinsert2 | priority_queue/src/tests/mod.rs:400 | 100 moves the minimum to slot 1 |
| PriorityQueueScenarios.Reinsert3 | priority_queue/src/tests/mod.rs:401-405 | after 300 the head is slot 2, the minimum slot 1 and the tail slot 0, as the test expects |
| PriorityQueueScenarios.Repop1 | priority_queue/src/tests/mod.rs:407 | the first pop returns 100 |
| PriorityQueueScenarios.Repop2 | priority_queue/src/tests/mod.rs:408 | the second returns 200 |
| PriorityQueueScenarios.Reinsert | priority_queue/src/tests/mod.rs:376-415 | the third returns 300 and leaves no head and the free list at slot 0 |
| PriorityQueueScenarios.ReinsertAsWritten1 | priority_queue/src/tests/mod.rs:394-398 | `insert` as written of 200 makes slot 0 head, tail and minimum, and slot 0 is still linked from the free list |
| PriorityQueueScenarios.ReinsertAsWritten2 | priority_queue/src/tests/mod.rs:400 | 100 as written goes into slot 1 after slot 0, and the free pointer moves to slot 0 |
| PriorityQueueScenarios.ReinsertAsWritten | priority_queue/src/tests/mod.rs:401-405 | after 300 as written the head is slot 0 holding only 300 (200 is lost), and the free list starts at slot 1, which is also the cached minimum holding 100 |
| PriorityQueueScenarios.Duplicates1 | priority_queue/src/tests/mod.rs:253-265 | of 100, 200, 100 the first pop returns 100 and leaves 100 as the minimum |
| PriorityQueueScenarios.Duplicates2 | priority_queue/src/tests/mod.rs:267-269 | the second returns 100 and leaves 200 |
| PriorityQueueScenarios.DuplicateValues | priority_queue/src/tests/mod.rs:253-275 | the third returns 200, after which there is no minimum and a further pop returns nothing |
| Sort.Position | sort/src/lib.rs:84-128 | the place `insert` links v: every value before it is no greater than v and the value at it is strictly greater |
| Sort.InsertKeepsAscending | sort/src/lib.rs:84-128 | inserting at `Position` keeps an ascending list ascending |
| Sort.RemoveKeepsAscending | sort/src/lib.rs:32-46 | removing an entry keeps an ascending list ascending |
| Sort.InsertAllSorts | sort/src/lib.rs:84-128 | any sequence of inserts into an ascending list gives an ascending list holding exactly the old and the new values |
| Sort.Sorted.constructor | sort/src/lib.rs:14-29 | `new` gives a valid empty list whose free list is every slot in index order, each slot unwritten and linking to the next one (the last to nothing), with `peek` empty |
| Sort.Sorted.Peek | sort/src/lib.rs:54-60 | `peek` is empty exactly on an empty list, otherwise the head value, which is no greater than any value |
| Sort.Sorted.Pop | sort/src/lib.rs:32-46 | `None` on an empty list, changing nothing; otherwise returns the head value, a least one, moves its slot to the front of the free list and keeps the rest ascending |
| Sort.Sorted.InsertFirst | sort/src/lib.rs:63-67 | the free head, written with v and linked to the old head, becomes the head, and the values gain v in front |
| Sort.Sorted.InsertAt | sort/src/lib.rs:70-81 | the free head, written with v and linked to `next`, is linked after `prev_index`, and the values gain v at its position |
| Sort.Sorted.Insert | sort/src/lib.rs:84-128 | fails, changing nothing, exactly when every slot is live; otherwise links v in at `Position`, so the list stays ascending and gains exactly v |
| SortScenarios.Holding1 | sort/src/lib.rs:159-169 | one insert into a fresh list of three fills slot 0 with the head and free pointers the test expects |
| SortScenarios.Descending2 | sort/src/lib.rs:170 | 2 goes in front of 3, into slot 1 |
| SortScenarios.Descending3 | sort/src/lib.rs:172 | 1 goes in front again, into slot 2 |
| SortScenarios.DescendingFull | sort/src/lib.rs:174 | a fourth insert fails and changes nothing |
| SortScenarios.DescendingPop1 | sort/src/lib.rs:177 | the first pop returns 1 |
| SortScenarios.DescendingPop2 | sort/src/lib.rs:179 | the second returns 2 |
| SortScenarios.DescendingPop3 | sort/src/lib.rs:181-183 | the third returns 3 and leaves no head and the free list at slot 0 |
| SortScenarios.InsertFirstRun | sort/src/lib.rs:157-186 | the whole run: a pop of the emptied list returns nothing |
| SortScenarios.Middle2 | sort/src/lib.rs:193-201 | 4 goes after 2, into slot 1, and `peek` still gives 2 |
| SortScenarios.Middle3 | sort/src/lib.rs:203 | 3 goes between them, into slot 2 |
| SortScenarios.MiddlePop1 | sort/src/lib.rs:205 | the first pop returns 2 |
| SortScenarios.MiddlePop2 | sort/src/lib.rs:207 | the second returns 3 |
| SortScenarios.InsertMiddleRun | sort/src/lib.rs:189-212 | the third returns 4 |
| SortScenarios.Ascending2 | sort/src/lib.rs:136-145 | 1 then 2 fill slots 0 and 1 in order |
| SortScenarios.PopFixture | sort/src/lib.rs:136-145 | inserting 1, 2, 3 gives exactly the full list that `test_pop` writes out by hand |
| SortScenarios.FixturePop1 | sort/src/lib.rs:147 | the first pop returns 1 |
| SortScenarios.FixturePop2 | sort/src/lib.rs:149 | the second returns 2 |
| SortScenarios.PopRun | sort/src/lib.rs:151-153 | the third returns 3 and leaves no head and the free list at slot 2 |

## Left out

- Concurrency is not modelled. This covers the critical sections, `acquire`/`release`, the static `STATE` that lets a preempting `pop` take over an ongoing one, and the early `None` a `pop` returns when its work was taken over (lib.rs:367-375). Every operation is modelled as one atomic step. priority_queue/src/cs_mutex.rs, priority_queue/src/mock_cs.rs and the `loom` tests are not part of this model.
- The `Debug` implementations and the `println!` calls in sort/src/lib.rs are output only and are left out.
- The `UnsafeCell` getters and setters, `node_at`, `next_at`, `free_node`, `tail_node` and the queue's `peek_at` become plain field and array accesses. Their precondition, an index in bounds with an initialised value cell, is a `requires` of array indexing and of `Node.Read`.
- `T` is `int`. A `PartialOrd` type without a total order, such as floating point with NaN, is not modelled.
- Capacity is limited to between 1 and 65536 slots, the range a `u16` index covers. With `N == 0` the free pointer `Some(0)` is out of bounds. For larger `N` the `as u16` casts in `new` would truncate.
- The `SmallerThanMin` error is documented on `insert` but commented out in the code, so the model has only `QueueFull`.
- Sort.Sorted.PeekAt: it has no contract of its own. It is the read of a written cell, and `Peek` states what it returns.
- `test_pop` builds its list literally with the free list empty. `SortScenarios.PopFixture` reaches the same array by three inserts instead.
- PriorityQueue.PriorityQueue.PopAsWritten: it does not ensure `MinIsLeast()`. The minimum that `pop` as written caches need not be least, as `PopScan.StaleRunnerUp` shows.
- PriorityQueue.PriorityQueue.InsertAsWritten: it keeps only `Indexed()` and not `Valid()`, because on an empty queue whose free list does not start at slot 0 the invariant breaks (see Findings).

## Findings

| source | as written | input that shows it | evidently intended | confidence | as-written member | corrected member |
|---|---|---|---|---|---|---|
| priority_queue/src/lib.rs:283-291 | on an empty queue `insert` sets head, tail and min to slot 0 and writes the value into slot 0, whatever slot it took off the free list | insert 100, 200, 300 into a queue of five, pop three times (free list now 2, 1, 0, 3, 4), then insert 200, 100, 300: the head is slot 0 holding only 300, 200 is lost, and the free list starts at slot 1, which is also the cached minimum holding 100; the `reinsert` test expects the head on slot 2 right after the first reinsert | link the slot just allocated (`insert_at`) as head, tail and min | not executed | PriorityQueue.PriorityQueue.InsertAsWritten, PriorityQueue.AsWrittenShares, PriorityQueueScenarios.ReinsertAsWritten | PriorityQueue.PriorityQueue.Insert, PriorityQueueScenarios.Reinsert |
| priority_queue/src/lib.rs:385-389, 418 | `pop` caches the pass's runner-up as the new minimum, but the runner-up only changes when the candidate does, so a value later in the list that is smaller than the runner-up is never recorded | insert 1, 5, 3 and pop: 1 is returned and the cached minimum is 5 while 3 is still queued, so `min()` returns 5 | the cached minimum is a least remaining value (the runner-up also replaced by a smaller node that does not beat the candidate) | not executed | PopScan.StaleRunnerUp, PriorityQueue.PriorityQueue.PopAsWritten, PriorityQueueScenarios.StaleMinAsWritten | PriorityQueue.PriorityQueue.Pop, PopScan.SelectFixedRunnerUp, PriorityQueueScenarios.StaleMin |
