# String queue with merge sort, modelled in Dafny

This project models `queue.c` from the lab0-c exercise. That file implements a
queue of strings on top of a singly-linked list. The queue record `queue_t`
keeps a head pointer, a cached tail pointer and an element counter. Each node
owns a private copy of its string.

The model works at the level of values:

- A C string is its bytes before the terminator. `CStrings.CStr` is a
  NUL-free `seq<byte>`, where `byte` is an unsigned char.
- A node chain is the sequence of values you meet by following `next` from
  `head`.
- `StringQueue.Queue` holds that chain, the value of the node the tail
  pointer designates, and the counter.
- A NULL `queue_t *` is `None`.
- Each `malloc` outcome is a boolean input. This makes the failure paths,
  which leave the queue unchanged, provable.
- Each operation is a function that returns the queue as the C function
  leaves it, together with its return value. For `q_remove_head` it also
  returns the caller's buffer.

Modules, by file:

- `cstrings.dfy` (`CStrings`): `strcmp` byte by byte, with the terminator
  below every other byte. It is proved to be a total order. A negative result
  is proved to mean "lexicographically smaller" under the textbook definition.
  The file also defines how a NUL-terminated buffer reads back.
- `chain.dfy` (`Chain`): chain reversal, and the three-pointer loop of
  `q_reverse`.
- `sorting.dfy` (`Sorting`): `merge` and `merge_sort` as recursive functions
  on sequences, and the loops of the C code as methods proved equal to them.
  `merge` takes from `l2` on ties. The split keeps ceil(n/2) nodes in the
  first half.
- `queue.dfy` (`StringQueue`): `q_new`, `q_insert_head`, `q_insert_tail`,
  `q_remove_head`, `q_size`, `q_reverse` and `q_sort`, plus the invariant
  `Valid` that each of them preserves.
- `traces.dfy` (`QueueTraces`): properties of call sequences. These cover
  FIFO and LIFO order, size accounting over any sequence of calls, reverse
  as its own inverse, sort idempotence, and two worked examples.

Two behaviours of the code are worth stating up front, because a reader might
expect otherwise:

- **The sort is not stable.** `merge` tests `strcmp(l1, l2) < 0` at
  `queue.c:185`, so on equal strings it takes the node of `l2` first. On
  values this makes no difference, because equal strings are
  indistinguishable (`Sorting.SortedUnique`).
- **The tail goes stale after the last removal.** `q_remove_head`
  (`queue.c:114-134`) never touches `q->tail`, so after the last element is
  removed the tail pointer still designates the freed node. The model keeps
  that stale value, and the invariant promises the tail only for a non-empty
  queue. The two places that read the tail are guarded by a size check:
  line 100 by the test at line 96, and line 232 by the test at line 226.

## Model

| member | source | states |
|---|---|---|
| CStrings.StrCmp | queue.c:185 | `strcmp` is zero exactly when the two strings are equal |
| CStrings.StrCmpIsLexLess | queue.c:185 | `strcmp` is negative exactly when the first string is a proper prefix of the second or has the smaller byte at the first difference |
| CStrings.StrCmpFlip | queue.c:185 | swapping the operands of `strcmp` negates its result, so the order is total |
| CStrings.StrLeTrans | queue.c:185 | the order `strcmp(a, b) <= 0` is transitive |
| CStrings.StrLeTotal | queue.c:185 | of any two strings, one compares no greater than the other |
| CStrings.StrLeAntisymmetric | queue.c:185 | two strings that each compare no greater than the other are equal |
| CStrings.ReadTerminated | queue.c:125-126 | a string written with a terminator after it reads back as itself, whatever follows |
| Chain.Rev | queue.c:154-171 | the reversed chain has the same length and holds at position i the element at position n-1-i |
| Chain.ReverseLinks | queue.c:164-170 | the three-pointer re-linking loop produces exactly the reversed chain |
| Sorting.Merge | queue.c:179-201 | `merge` returns a permutation of the concatenation of its two inputs |
| Sorting.MergeSorted | queue.c:179-201 | `merge` of two sorted chains is sorted |
| Sorting.MergeLinks | queue.c:181-200 | the loop of `merge`, with its final linking of the rest, computes `Merge` |
| Sorting.SplitHalves | queue.c:208-216 | the slow/fast walk cuts the chain into two consecutive parts, the first holding ceil(n/2) nodes |
| Sorting.MergeSort | queue.c:203-222 | `merge_sort` returns a sorted permutation of its input |
| Sorting.MergeSortLinks | queue.c:203-222 | split, two recursive sorts and the merge loop compute `MergeSort`; the result is a sorted permutation |
| Sorting.SortedUnique | queue.c:179-222 | two sorted chains with the same multiset of strings are equal, so the sorted result is fully determined |
| Sorting.MergeSortOfSorted | queue.c:203-222 | sorting an already sorted chain returns it unchanged |
| StringQueue.New | queue.c:12-22 | a new queue exists exactly when allocation succeeds; it has no nodes, no tail and size 0, and satisfies the invariant |
| StringQueue.InsertHead | queue.c:47-69 | succeeds exactly for a present queue when both allocations succeed. Then the chain is the new string followed by the old chain, size grows by one, the invariant holds, and the tail is the new node if the queue was empty and unchanged otherwise. On failure nothing changes |
| StringQueue.InsertTail | queue.c:78-104 | succeeds exactly for a present queue when both allocations succeed. Then the chain is the old chain followed by the new string, size grows by one, the new node is the tail (and the head if the queue was empty), and the invariant holds. On failure nothing changes |
| StringQueue.CopyOut | queue.c:121-127 | the buffer keeps its length and reads back as the value truncated to `bufsize - 1` bytes; no byte at or beyond `bufsize` is written |
| StringQueue.RemoveHead | queue.c:114-134 | fails, changing nothing, exactly when the queue is NULL or empty. Otherwise the chain loses its head, size drops by one, the invariant holds, and a supplied buffer reads back the removed value truncated to `bufsize - 1` bytes, with nothing written past `bufsize` |
| StringQueue.Size | queue.c:140-145 | 0 for NULL; otherwise the number of nodes in the chain |
| StringQueue.Reverse | queue.c:154-171 | NULL and queues of at most one element are unchanged. Otherwise the chain is reversed, size is kept, the tail is the old head, and the invariant holds |
| StringQueue.ReverseInPlace | queue.c:154-171 | setting the tail to the head and then running the re-linking loop gives the same queue as `Reverse` |
| StringQueue.Sort | queue.c:224-235 | NULL and queues of at most one element are unchanged. Otherwise the chain is sorted, has the same multiset of strings and the same size, and the tail is its last node |
| QueueTraces.FillTail | queue.c:78-104 | successful tail insertions of a list of values append exactly that list to the chain and keep the invariant |
| QueueTraces.FillHead | queue.c:47-69 | successful head insertions of a list of values put that list, reversed, in front of the chain and keep the invariant |
| QueueTraces.DrainTakesPrefix | queue.c:114-134 | n removals with a large enough buffer read back the first n values in chain order and leave the rest queued |
| QueueTraces.DrainAll | queue.c:114-134 | removing as many elements as the queue holds reads back its whole chain and leaves size 0 |
| QueueTraces.Fifo | queue.c:78-134 | tail insertions into a new queue followed by as many head removals return the values in insertion order and leave size 0 |
| QueueTraces.Lifo | queue.c:47-134 | head insertions into a new queue followed by as many head removals return the values in reverse order and leave size 0 |
| QueueTraces.Step | queue.c:47-235 | one call keeps the invariant and NULL as NULL, at most one insertion or removal succeeds, and size changes by that success |
| QueueTraces.Run | queue.c:47-235 | any sequence of allowed calls keeps the invariant and keeps NULL as NULL; size changes by successful insertions minus successful removals |
| QueueTraces.SizeAccounting | queue.c:47-145 | starting from a new queue, size equals successful insertions minus successful removals |
| QueueTraces.ReverseTwice | queue.c:154-171 | reversing twice restores chain, size and tail |
| QueueTraces.SortOfSorted | queue.c:224-235 | sorting a queue whose chain is already sorted changes nothing |
| QueueTraces.SortTwice | queue.c:224-235 | sorting is idempotent |
| QueueTraces.SortIsTheSortedPermutation | queue.c:224-235 | the sorted chain is the one sorted arrangement of the queue's strings |
| QueueTraces.SortExample | queue.c:224-235 | inserting "banana", "apple", "cherry" at the tail and sorting gives "apple", "banana", "cherry" and size 3 |
| QueueTraces.ReverseExample | queue.c:154-171 | inserting "a" then "b" at the head gives "b", "a"; reversing gives "a", "b" |

## Left out

- `q_free` (queue.c:24-38) and every `malloc`/`free`. Memory ownership and leak freedom are not modelled. An allocation is a boolean outcome.
- Node identity. Values stand in for nodes. So the model cannot state that `q_reverse` and `q_sort` re-link existing nodes without allocating. It also cannot state which of two equal strings ends up first. Only the value-level sorted-permutation result is proved.
- StringQueue.Sort: the tail walk of queue.c:232-234 starts from the old tail node. The model sets the tail to the last value of the sorted chain, which is where that walk ends.
- StringQueue.RemoveHead: a call that removes an element into a buffer with `bufsize == 0` is excluded by its precondition, and so is a buffer shorter than `bufsize`. In C, `bufsize - 1` wraps around as `size_t` there and the copy overruns the buffer. Calls on a NULL or empty queue are modelled for every `bufsize`, since they return at line 117 before `bufsize` is used.
- StringQueue.RemoveHead: `copy_len` is an `int` in C and is not narrowed. The model uses unbounded integers.
- StringQueue.Size: the counter is an unbounded natural. The overflow of the C `int` counter is not modelled.
- Null `s` arguments to the insert functions are not modelled. The C code passes them to `strlen` unchecked, so a caller must not supply one.
- The header files `harness.h` and `queue.h`, and the test and fuzz driver, are not part of this model.
