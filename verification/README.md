# DoublyLinkedList with a landmark table, in Dafny

This project models `DoublyLinkedList<T, S>` from `src/inc/DoublyLinkedList.hh` and proves its properties. The class is a doubly linked chain of `Node{prev, value, next}` plus a vector `_refs` of landmark pointers:

- `_refs.front()` is the head and `_refs.back()` is the tail.
- Between them, entry `i` is the node at position `i * _size`.
- An empty list has `{nullptr, nullptr}`, and a single node has `{head, head}`.
- `at(pos)` uses the table: it jumps to slot `pos / _size`, then follows `pos % _size` links.
- Every mutation patches the table in place:
  - a growth step when `_len > 2 and (_len - 2) % _size == 0`;
  - a shift of every slot from `ceil(pos / _size)` on by one link;
  - a shrink step when `(_len - 1) % _size == 0`.
- `resize` rebuilds the table by walking the chain.
- `sort` is a stable merge sort that relinks the nodes and then calls `resize`.

## How the model is organised

- **State.** Pointers become identifiers into an arena `map<Id, Node>`. A list is an immutable record:
  - the arena;
  - `order`, the identifiers from head to tail;
  - `refs`, the table;
  - `len`;
  - `size`, the stride;
  - the next identifier to allocate.

  Each member function becomes a function from the old state to the new one.
- **Values.** Values are `int`, and `T()` is `0`.
- **Predicates.**
  - `Elems` is the sequence of values along `order`.
  - `Chained` says the arena holds a well-formed doubly linked chain along `order`.
  - `Valid` adds the landmark invariant `IsLandmarkTable`.
  - `Linked` is weaker: it only asks that the first slot is null exactly when the list is empty, and that the last slot holds the tail. It describes the states the source reaches by popping down to one node (see Findings), and `push_tail` only needs that much.
- **Modules.**
  - `Chain` holds the chain and its link surgery.
  - `Stride` holds the div/mod arithmetic.
  - `LandmarkTable` holds the invariant and the table patches.
  - `MergeSort` holds `_split`/`_merge`/`_merge_sort` on sequences.
  - `DoublyLinkedList` holds the operations.
  - `Traversal` holds the iterators and `operator==`.
  - `Findings` holds the departures listed below.
- **Contract style.** A function's own contract gives the structural effect: the new `order`, the length, the stride and the error cases. Separate lemmas state:
  - the effect on the values (`…Elems`);
  - that the invariant is preserved (`…Valid`).
- **Source of truth.** The model follows the code as written.
  - A stride of 0 is rejected only by the constructors' `assert`s, and `pop(0)` on an empty list goes to the permissive `pop_head`, which returns `T()` instead of throwing. The model keeps both.
  - Where the code breaks its own invariant, the written behaviour is kept in `DoublyLinkedList`. `Findings` proves what goes wrong and gives the corrected definitions.

## Model

| member | source | states |
|---|---|---|
| DoublyLinkedList.ValidLinked | src/inc/DoublyLinkedList.hh:731-735 | under the invariant the first slot holds the head, the last slot the tail, and both are null exactly when the list is empty |
| LandmarkTable.TableShape | src/inc/DoublyLinkedList.hh:731-735 | a landmark table has `2 + (len - 2) / size` entries (at least 2), the head first, the tail last, and slot `i` at position `i * size` |
| DoublyLinkedList.New | src/inc/DoublyLinkedList.hh:37 | a new list with a positive stride is valid, empty and keeps the stride |
| DoublyLinkedList.Clear | src/inc/DoublyLinkedList.hh:63-77 | after `clear` the list is valid and empty, with its stride unchanged |
| DoublyLinkedList.PushTail | src/inc/DoublyLinkedList.hh:79-92 | `push_tail` allocates a fresh node, appends it to the order and grows the length by one |
| DoublyLinkedList.PushTailElems | src/inc/DoublyLinkedList.hh:79-92 | the values `s` become `s + [v]` |
| DoublyLinkedList.PushTailValid | src/inc/DoublyLinkedList.hh:79-92 | `push_tail` preserves the landmark invariant, including the growth step at line 85 |
| DoublyLinkedList.PushTailLinked | src/inc/DoublyLinkedList.hh:79-92 | `push_tail` also applies to, and preserves, the weaker shape that has only "first slot null iff empty, last slot the tail" |
| DoublyLinkedList.First | src/inc/DoublyLinkedList.hh:82-84 | the first node pushed onto an empty list is the whole order, and the length becomes 1 |
| DoublyLinkedList.FirstValid | src/inc/DoublyLinkedList.hh:82-84 | the first node fills both slots, giving the valid one-value list `[v]` |
| DoublyLinkedList.Append | src/inc/DoublyLinkedList.hh:85-91 | pushing onto a non-empty list puts a fresh node after the old order and grows the length by one |
| DoublyLinkedList.AppendElems | src/inc/DoublyLinkedList.hh:85-91 | the new value goes last and the old values keep their order |
| DoublyLinkedList.AppendLinked | src/inc/DoublyLinkedList.hh:85-91 | appending keeps a linked list linked and a valid list valid, through both branches of the growth test |
| LandmarkTable.TailSlotTable | src/inc/DoublyLinkedList.hh:85-91 | appending past the tail either adds a slot at a sampling boundary or moves the tail slot, and either way keeps the table |
| Stride.StepCount | src/inc/DoublyLinkedList.hh:85 | going from `n` to `n + 1` nodes adds a slot exactly when `(n - 1) % size == 0`, and the new interior slot then sits at `n - 1` |
| DoublyLinkedList.PushHead | src/inc/DoublyLinkedList.hh:109-124 | `push_head` allocates a fresh node, puts it first in the order and grows the length by one |
| DoublyLinkedList.Prepend | src/inc/DoublyLinkedList.hh:115-122 | pushing onto a non-empty list puts a fresh node before the old order and grows the length by one |
| DoublyLinkedList.PrependElems | src/inc/DoublyLinkedList.hh:115-122 | the new value goes first and the old values follow in order |
| DoublyLinkedList.PrependValid | src/inc/DoublyLinkedList.hh:115-122 | linking before the head, stepping every slot but the last back and running the growth step keeps the invariant, with the new node in the first slot |
| DoublyLinkedList.PushHeadElems | src/inc/DoublyLinkedList.hh:109-124 | the values `s` become `[v] + s` |
| DoublyLinkedList.PushHeadValid | src/inc/DoublyLinkedList.hh:109-124 | `push_head` preserves the invariant, and the first slot names the returned node |
| DoublyLinkedList.Insert | src/inc/DoublyLinkedList.hh:143-166 | `insert` fails with "pos > length" exactly when `pos > len`; otherwise a fresh node lands at position `pos` and the length grows by one |
| DoublyLinkedList.InsertElems | src/inc/DoublyLinkedList.hh:143-166 | for `pos <= len` the values become `s[..pos] + [v] + s[pos..]` |
| DoublyLinkedList.InsertFrontElems | src/inc/DoublyLinkedList.hh:145-147 | `insert(0, v)` succeeds on every valid list, including the empty one, and puts `v` in front of the values |
| DoublyLinkedList.InsertBackElems | src/inc/DoublyLinkedList.hh:148-150 | `insert(len, v)` on a non-empty list succeeds and puts `v` after the values |
| DoublyLinkedList.InsertValid | src/inc/DoublyLinkedList.hh:143-166 | `insert` within bounds preserves the landmark invariant |
| DoublyLinkedList.InsertInside | src/inc/DoublyLinkedList.hh:155-165 | inserting at `0 < pos < len` puts a fresh node at position `pos`, between the old positions `pos - 1` and `pos`, and grows the length by one |
| DoublyLinkedList.InsertInsideElems | src/inc/DoublyLinkedList.hh:155-165 | the new value lands at index `pos` and the old values keep their order around it |
| DoublyLinkedList.InsertInsideValid | src/inc/DoublyLinkedList.hh:155-165 | the inner insert keeps the landmark invariant |
| DoublyLinkedList.InsertInsideChained | src/inc/DoublyLinkedList.hh:156 | splicing the new node between `node->prev` and `node` leaves a well-formed chain of the new order |
| DoublyLinkedList.InsertInsideTable | src/inc/DoublyLinkedList.hh:155-164 | the backward shift from slot `ceil(pos / size)` followed by the growth step yields the table of the new order |
| LandmarkTable.InsertTable | src/inc/DoublyLinkedList.hh:157-164 | for any node inserted before position `pos < len`, the shift-then-grow patch turns a landmark table into the landmark table of the new order |
| Stride.FirstSlotSplit | src/inc/DoublyLinkedList.hh:157 | slot `i` is at or after the first shifted slot `(pos % size ? 1 : 0) + pos / size` exactly when `i * size >= pos` |
| DoublyLinkedList.InsertEach | src/inc/DoublyLinkedList.hh:193-210 | inserting a range one value at a time fails exactly when the range is non-empty and `pos > len`; otherwise the list stays valid and grows by the range's length |
| DoublyLinkedList.InsertEachElems | src/inc/DoublyLinkedList.hh:193-210 | for `pos <= len` the range is spliced in: `s[..pos] + vs + s[pos..]` |
| DoublyLinkedList.InsertEachStep | src/inc/DoublyLinkedList.hh:193-210 | after the first `insert(pos++, value)` of a range, the list is valid, holds that value at `pos`, and the rest of the range goes in from `pos + 1` |
| DoublyLinkedList.InsertRange | src/inc/DoublyLinkedList.hh:193-210 | range `insert` fails when `pos > len`, or for an empty range at `pos == len` (the final `at` throws); otherwise it returns the node at `pos` of a valid list |
| DoublyLinkedList.InsertRangeElems | src/inc/DoublyLinkedList.hh:193-210 | a successful range insert splices the values in at `pos`, and the returned node holds the first of them |
| DoublyLinkedList.PopTail | src/inc/DoublyLinkedList.hh:212-231 | on an empty list `pop_tail` returns `T()` and changes nothing; otherwise it removes the last node from the order |
| DoublyLinkedList.Emptied | src/inc/DoublyLinkedList.hh:220-221 | popping the only node leaves an empty order and the stride; the table becomes `{nullptr, nullptr}` |
| DoublyLinkedList.EmptiedValid | src/inc/DoublyLinkedList.hh:220-221 | popping the only node leaves a valid empty list |
| DoublyLinkedList.DropTail | src/inc/DoublyLinkedList.hh:222-229 | `pop_tail` from two or more nodes removes the last node from the order and shortens the list by one |
| DoublyLinkedList.DropTailElems | src/inc/DoublyLinkedList.hh:222-229 | the other values keep their order |
| DoublyLinkedList.DropTailValid | src/inc/DoublyLinkedList.hh:222-229 | the result is linked; it is valid unless one node is left, and then the table is `[head]` |
| DoublyLinkedList.PopTailElems | src/inc/DoublyLinkedList.hh:212-231 | `pop_tail` returns the last value and keeps the others in order |
| DoublyLinkedList.PopTailValid | src/inc/DoublyLinkedList.hh:212-231 | after `pop_tail` the list is linked, and valid unless one node is left; one node leaves the one-entry table `[head]` |
| LandmarkTable.PopTailTable | src/inc/DoublyLinkedList.hh:223-228 | stepping the tail slot back and shrinking keeps the table from three nodes on; from two nodes it leaves `[head]` |
| DoublyLinkedList.PopHead | src/inc/DoublyLinkedList.hh:233-255 | on an empty list `pop_head` returns `T()` and changes nothing; otherwise it removes the first node from the order |
| DoublyLinkedList.DropHead | src/inc/DoublyLinkedList.hh:243-253 | `pop_head` from two or more nodes removes the first node from the order and shortens the list by one |
| DoublyLinkedList.DropHeadElems | src/inc/DoublyLinkedList.hh:243-253 | the other values keep their order |
| DoublyLinkedList.DropHeadValid | src/inc/DoublyLinkedList.hh:243-253 | the result is linked; it is valid unless one node is left, and then the table is `[tail]` |
| DoublyLinkedList.PopHeadElems | src/inc/DoublyLinkedList.hh:233-255 | `pop_head` returns the first value and keeps the others in order |
| DoublyLinkedList.PopHeadValid | src/inc/DoublyLinkedList.hh:233-255 | after `pop_head` the list is linked, and valid unless one node is left, which leaves `[tail]` |
| LandmarkTable.PopHeadTable | src/inc/DoublyLinkedList.hh:244-252 | moving the head slot, shifting the interior slots forward and shrinking keeps the table from three nodes on; from two nodes it leaves `[tail]` |
| DoublyLinkedList.Pop | src/inc/DoublyLinkedList.hh:257-280 | `pop` fails with "pos >= length" exactly when `pos >= len` and `pos != 0`; `pop(0)` on an empty list returns `T()` unchanged; otherwise the node at `pos` leaves the order |
| DoublyLinkedList.PopElems | src/inc/DoublyLinkedList.hh:257-280 | for `pos < len`, `pop` returns the value at `pos` and the values become `s[..pos] + s[pos + 1..]` |
| DoublyLinkedList.PopValid | src/inc/DoublyLinkedList.hh:257-280 | after `pop` the list is linked, and valid unless one node is left |
| DoublyLinkedList.PopInside | src/inc/DoublyLinkedList.hh:265-279 | removing at `0 < pos < len - 1` takes exactly position `pos` out of the order and shortens the list by one |
| DoublyLinkedList.PopInsideElems | src/inc/DoublyLinkedList.hh:265-279 | removing an inner node returns its value and keeps the other values in order |
| DoublyLinkedList.PopInsideValid | src/inc/DoublyLinkedList.hh:265-279 | removing an inner node, with each shifted slot moving to the successor read before the removal, keeps the landmark invariant |
| DoublyLinkedList.PopInsideChained | src/inc/DoublyLinkedList.hh:268-271 | bypassing and freeing the inner node leaves a well-formed chain of the other nodes |
| DoublyLinkedList.PopInsideTable | src/inc/DoublyLinkedList.hh:268-277 | removing an inner node, shifting the slots from `ceil(pos / size)` forward and shrinking yields the table of the remaining order |
| LandmarkTable.BypassTable | src/inc/DoublyLinkedList.hh:268-277 | for every chain, table and inner `pos`: bypassing the node, stepping the slots from `ceil(pos / size)` forward and shrinking gives the table of the order without `pos` |
| LandmarkTable.RemoveTable | src/inc/DoublyLinkedList.hh:272-277 | a forward shift of every slot at or after `pos`, then the shrink step, turns the table into that of the order with position `pos` removed |
| DoublyLinkedList.At | src/inc/DoublyLinkedList.hh:282-293 | `at` fails with "pos >= length" exactly when `pos >= len`, and otherwise returns the node at position `pos` |
| DoublyLinkedList.AtWalk | src/inc/DoublyLinkedList.hh:288-292 | slot `pos / size` exists and is non-null, and following `next` `pos % size` times from it reaches position `pos` |
| LandmarkTable.LandmarkWalk | src/inc/DoublyLinkedList.hh:288-292 | from a slot naming the node at `(pos / size) * size`, `pos % size` steps along `next` reach the node at `pos` |
| LandmarkTable.WalkFromSlot | src/inc/DoublyLinkedList.hh:288-292 | the node `at` reaches by that walk is the node at position `pos` |
| LandmarkTable.LandmarkAt | src/inc/DoublyLinkedList.hh:288 | slot `pos / size` names the node at position `(pos / size) * size`, including when that slot is the tail |
| Chain.WalkAlong | src/inc/DoublyLinkedList.hh:289-291 | following `next` `k` times from position `i` of a chain reaches position `i + k` |
| DoublyLinkedList.Resize | src/inc/DoublyLinkedList.hh:295-306 | `resize` keeps the nodes, their order and the length, and sets the stride |
| DoublyLinkedList.ResizeValid | src/inc/DoublyLinkedList.hh:295-306 | from two nodes on, `resize` leaves the landmark table for the new stride; a single node leaves `[head]` |
| DoublyLinkedList.ResizeAt | src/inc/DoublyLinkedList.hh:295-306 | after `resize` of a valid list of two or more nodes, `at(pos)` gives the same answer as before for every `pos` |
| LandmarkTable.RebuildTable | src/inc/DoublyLinkedList.hh:298-305 | the walk of `resize` over two or more nodes records exactly the landmark table |
| LandmarkTable.RebuildSlots | src/inc/DoublyLinkedList.hh:300-305 | the walk from position `i` records the nodes at the multiples of `size` before the tail, then the tail |
| DoublyLinkedList.Sort | src/inc/DoublyLinkedList.hh:308-362 | after `sort` the order is the merge sort of the nodes by value; length and stride stay |
| DoublyLinkedList.SortElems | src/inc/DoublyLinkedList.hh:308-362 | after `sort` the values are ordered (non-decreasing, or non-increasing when descending), each occurs as often as before, and equal values keep their relative order |
| DoublyLinkedList.SortValid | src/inc/DoublyLinkedList.hh:308-362 | `sort` keeps the same nodes in a well-formed chain; the list is valid from two nodes on, and one node leaves `[head]` |
| DoublyLinkedList.SortIdempotent | src/inc/DoublyLinkedList.hh:308-362 | sorting twice is sorting once: a second `sort` keeps the order of nodes and the values the first produced |
| DoublyLinkedList.SortOfSortedList | src/inc/DoublyLinkedList.hh:308-362 | sorting any list whose values are already in order, whatever built it, keeps its order of nodes and its values |
| DoublyLinkedList.SortedAfterSort | src/inc/DoublyLinkedList.hh:308-362 | after `sort` the nodes are in order of the values they hold |
| DoublyLinkedList.SortedChain | src/inc/DoublyLinkedList.hh:318-327 | relinking the nodes in sorted order gives a chain whose `prev` and `next` agree, with the values untouched |
| MergeSort.SplitPoint | src/inc/DoublyLinkedList.hh:332-345 | `_split` leaves `ceil(n / 2)` nodes in the left run |
| MergeSort.MergeCount | src/inc/DoublyLinkedList.hh:310-330 | `_merge` keeps every element of both runs, as often as it occurred |
| MergeSort.MergeStable | src/inc/DoublyLinkedList.hh:320-328 | merging sorted runs, which takes the left one on ties, keeps each key's elements left run first, in order |
| MergeSort.SortCount | src/inc/DoublyLinkedList.hh:347-358 | `_merge_sort` permutes its input |
| MergeSort.SortSorted | src/inc/DoublyLinkedList.hh:347-358 | `_merge_sort` orders its input by key |
| MergeSort.SortStable | src/inc/DoublyLinkedList.hh:347-358 | `_merge_sort` keeps the relative order of elements with equal keys |
| MergeSort.SortOfSorted | src/inc/DoublyLinkedList.hh:347-358 | `_merge_sort` returns an already sorted run unchanged |
| DoublyLinkedList.Assign | src/inc/DoublyLinkedList.hh:364-371 | `operator=` keeps the receiver's stride and takes the other list's length |
| DoublyLinkedList.AssignElems | src/inc/DoublyLinkedList.hh:364-371 | after `operator=` the receiver is valid and holds the other list's values, whatever the two strides |
| DoublyLinkedList.AssignValues | src/inc/DoublyLinkedList.hh:373-380 | assigning a value range keeps the stride and sets the length to the range's length |
| DoublyLinkedList.AssignValuesElems | src/inc/DoublyLinkedList.hh:373-380 | after assigning a value range the list is valid and holds exactly those values |
| DoublyLinkedList.PushEach | src/inc/DoublyLinkedList.hh:39-59 | repeated `push_tail` keeps the linked shape and grows the length by the number of values |
| DoublyLinkedList.PushEachElems | src/inc/DoublyLinkedList.hh:39-59 | repeated `push_tail` appends the values in order |
| DoublyLinkedList.PushEachValid | src/inc/DoublyLinkedList.hh:39-59 | repeated `push_tail` keeps a valid list valid |
| DoublyLinkedList.FromValues | src/inc/DoublyLinkedList.hh:39-44 | a list built from values has the given stride and one node per value |
| DoublyLinkedList.FromValuesElems | src/inc/DoublyLinkedList.hh:39-44 | a list built from values is valid and holds them in order |
| Traversal.Equal | src/inc/DoublyLinkedList.hh:428-439 | `operator==` holds exactly when the value sequences are equal; strides and tables play no part |
| Traversal.NotEqual | src/inc/DoublyLinkedList.hh:441-444 | `operator!=` holds exactly when the value sequences differ |
| Traversal.EqualAcrossStrides | src/inc/DoublyLinkedList.hh:428-439 | lists built from the same values with any two strides compare equal |
| Traversal.EqualAfterResize | src/inc/DoublyLinkedList.hh:428-439 | a list of two or more nodes compares equal to itself after `resize` |
| DoublyLinkedList.IsEmpty | src/inc/DoublyLinkedList.hh:446-449 | `empty` holds exactly when there are no values |
| DoublyLinkedList.Length | src/inc/DoublyLinkedList.hh:451-454 | `length` is the number of values |
| DoublyLinkedList.Head | src/inc/DoublyLinkedList.hh:456-459 | `head` is null exactly for the empty list, and otherwise the first node |
| DoublyLinkedList.Tail | src/inc/DoublyLinkedList.hh:461-464 | `tail` is null exactly for the empty list, and otherwise the last node |
| DoublyLinkedList.Size | src/inc/DoublyLinkedList.hh:466-469 | `size` is the stride, which is positive |
| DoublyLinkedList.SizeKept | src/inc/DoublyLinkedList.hh:466-469 | only `resize` changes what `size` returns: pushes, pops and `clear` keep it, and `resize(size)` sets it to `size` |
| Traversal.Forward | src/inc/DoublyLinkedList.hh:525-528 | iterating from `begin()` with `operator++` to the null `end()` visits exactly the values, head to tail |
| Traversal.Backward | src/inc/DoublyLinkedList.hh:653-656 | iterating from `rbegin()` (the tail slot) along `prev` visits the values in reverse; this also holds in the linked-only shape |
| Traversal.BothWays | src/inc/DoublyLinkedList.hh:616-620 | forward and reverse iteration give sequences that are each other's reversal |
| Chain.LinkAfterIsChain | src/inc/DoublyLinkedList.hh:86-91 | linking a fresh node after the tail extends the chain by that node |
| Chain.LinkBeforeIsChain | src/inc/DoublyLinkedList.hh:115 | linking a fresh node before the head extends the chain at the front |
| Chain.LinkBetweenIsChain | src/inc/DoublyLinkedList.hh:156 | linking a fresh node between positions `pos - 1` and `pos` gives the chain of the spliced order |
| Chain.UnlinkTailIsChain | src/inc/DoublyLinkedList.hh:223-225 | unlinking the tail leaves the chain of all nodes but the last |
| Chain.UnlinkHeadIsChain | src/inc/DoublyLinkedList.hh:244-246 | unlinking the head leaves the chain of all nodes but the first |
| Chain.BypassIsChain | src/inc/DoublyLinkedList.hh:268-270 | bypassing an inner node leaves the chain of the order without it |
| Chain.RelinkIsChain | src/inc/DoublyLinkedList.hh:318-327 | rewriting `prev`/`next` along any duplicate-free sequence of live nodes gives a chain in that order |
| Findings.PopTailThenPush | src/inc/DoublyLinkedList.hh:226-228 | written behaviour: `pop_tail` from two nodes, then `push_tail`, leaves a one-entry table whose first slot names the tail; the list is not valid |
| Findings.PopTailFixedValid | src/inc/DoublyLinkedList.hh:212-231 | with the shrink guarded by `_len > 1`, `pop_tail` returns the same value, keeps the same values and always leaves a valid list |
| Findings.PopTailFixedThenPush | src/inc/DoublyLinkedList.hh:212-231 | with the guard, popping to one node and pushing again keeps the list valid with the head in the first slot |
| Findings.DropTailFixedValid | src/inc/DoublyLinkedList.hh:222-229 | the guarded tail removal is valid for every length and equals the written one from three nodes on |
| Findings.DropTailFixedSingle | src/inc/DoublyLinkedList.hh:222-229 | with the guard, popping the tail of two nodes leaves the two-entry table naming the head in both slots |
| Findings.GuardedShrink | src/inc/DoublyLinkedList.hh:226-228 | the shrink step with a `_len > 1` guard: one node keeps its table, and from two nodes on it is the written shrink step |
| Findings.DropTailFixed | src/inc/DoublyLinkedList.hh:222-229 | the guarded tail removal removes the last node from the order and shortens the list by one |
| Findings.PopTailFixed | src/inc/DoublyLinkedList.hh:212-231 | the guarded `pop_tail` returns `T()` unchanged on an empty list and otherwise removes the last node |
| Findings.PopHeadThenPush | src/inc/DoublyLinkedList.hh:250-252 | written behaviour: `pop_head` from two nodes, then `push_tail`, leaves a one-entry table whose first slot names the tail |
| Findings.PopHeadFixedValid | src/inc/DoublyLinkedList.hh:233-255 | with the guarded shrink, `pop_head` returns the same value, keeps the same values and always leaves a valid list |
| Findings.DropHeadFixedValid | src/inc/DoublyLinkedList.hh:243-253 | the guarded head removal is valid for every length and equals the written one from three nodes on |
| Findings.DropHeadFixed | src/inc/DoublyLinkedList.hh:243-253 | the guarded head removal removes the first node from the order and shortens the list by one |
| Findings.PopHeadFixed | src/inc/DoublyLinkedList.hh:233-255 | the guarded `pop_head` returns `T()` unchanged on an empty list and otherwise removes the first node |
| Findings.ResizeThenPush | src/inc/DoublyLinkedList.hh:300-305 | written behaviour: `resize` of a single node records it once, and the next `push_tail` leaves the tail in the first slot |
| Findings.ResizeStartsAtNull | src/inc/DoublyLinkedList.hh:298-300 | written behaviour: on a valid empty list the first slot, where the walk of `resize` starts, is null, so `curr->next` has no node to read; the model records this as `DoublyLinkedList.Resize` requiring a non-empty list |
| Findings.ResizeFixedValid | src/inc/DoublyLinkedList.hh:295-306 | `resize` with the empty and one-node cases handled keeps the values, leaves a valid list for every length and preserves `at` |
| Findings.ResizeFixed | src/inc/DoublyLinkedList.hh:295-306 | `resize` as intended keeps the nodes, order and length for every length, including empty, and sets the stride |
| Findings.SortThenPush | src/inc/DoublyLinkedList.hh:360-361 | written behaviour: `sort` of a single node ends with `resize`, which leaves one entry, and the next `push_tail` leaves the tail in the first slot |
| Findings.SortFixedValid | src/inc/DoublyLinkedList.hh:308-362 | `sort` that leaves lists shorter than two alone is valid for every length, ordered and a permutation of the values |
| Findings.SortFixed | src/inc/DoublyLinkedList.hh:308-362 | `sort` as intended keeps length and stride for every length, and from two nodes on orders the nodes as the merge sort does |
| Findings.PopReadsRemovedNode | src/inc/DoublyLinkedList.hh:271-273 | when `pos % size == 0`, the first slot `pop(pos)` shifts names the removed node itself, which is gone from the arena |
| Findings.AssignAliasedEmpties | src/inc/DoublyLinkedList.hh:364-371 | written behaviour: `a = a` on a non-empty list leaves it valid but empty |
| Findings.AssignAliased | src/inc/DoublyLinkedList.hh:364-371 | written behaviour: `a = a` is `clear()` followed by copying the values of the now empty receiver; the stride stays |
| Findings.AssignCheckedElems | src/inc/DoublyLinkedList.hh:364-371 | assignment that skips self-assignment always leaves the receiver valid and holding the other list's values |
| Findings.AssignChecked | src/inc/DoublyLinkedList.hh:364-371 | `operator=` that returns at once on self-assignment keeps the receiver's stride |

## Left out

- Text I/O: the stream operators and `from_string` (lines 382-426 and 728).
- Memory management: `new`/`delete`, the destructor and the recursive teardown in `clear`, which is modelled as a reset to the empty state. Nodes removed by a pop leave the arena. The node left behind when popping to length 0 stays there, matching the source, which does not free it.
- The iterator classes beyond their dereference, `begin`/`rbegin` and `operator++`: post-increment, decrement and iterator equality are not modelled. Forward and reverse iteration are the `Traversal` walks.
- The `T&&` overloads of `push_tail`, `push_head` and `insert`, which behave exactly like the `const T&` ones.
- The pointer-range and `InputIt` constructors and the initializer-list overloads: all are modelled as `FromValues`, construction from a sequence by repeated `push_tail`.
- Values are `int` rather than a generic `T`, and `T()` is `0`; floating point is not modelled.
- Machine widths: `uint64_t` and `S` are unbounded integers. In particular `pop(pos)` on an empty list with `pos == 2^64 - 1` is not modelled. That case wraps `_len - 1` to the same value and calls `pop_tail`.
- Complexity claims.
- `src/inc/test/DoublyLinkedList.hh` is not part of this model: it calls constructors the header does not declare.
- DoublyLinkedList.Resize: requires a positive new stride, which the source does not check. It also requires a non-empty list, because the source dereferences null on an empty one.
- DoublyLinkedList.Sort: requires a non-empty list, for the same reason, since it ends with `resize`.
- DoublyLinkedList.PopValid: states validity only when the result does not have exactly one node. The source leaves a one-entry table there (see Findings).
- DoublyLinkedList.PopTailValid, DoublyLinkedList.PopHeadValid: the same restriction as `PopValid`.
- DoublyLinkedList.ResizeValid, DoublyLinkedList.SortValid: state validity from two nodes on only, because a single node leaves a one-entry table in the source.
- Traversal.Forward, Traversal.Equal: require the full invariant. In the linked-only states `begin()` may start at the tail (see Findings).
- Traversal.EqualAfterResize: requires two or more nodes, because `resize` on one node leaves the non-valid table `[head]` and `Traversal.Equal` requires valid lists.
- DoublyLinkedList.Assign: models assignment from a different list; self-assignment is in Findings.
- DoublyLinkedList.PopInside: reads the removed node's successor before the removal. The source reads it from the freed node (see Findings).

## Findings

| source | as written | input that shows it | evidently intended | confidence | as-written member | corrected member |
|---|---|---|---|---|---|---|
| src/inc/DoublyLinkedList.hh:226-228 | `pop_tail` shrinks the table whenever `(_len - 1) % _size == 0`, also when one node is left, leaving `{head}` instead of `{head, head}` | stride 1, push 1, push 2, `pop_tail()`, push 3: the table is `{node 3}`, so `head()`, `begin()` and `at(0)` start at the tail | guard the shrink with `_len > 1` | not executed; follows from the code | Findings.PopTailThenPush | Findings.PopTailFixedValid |
| src/inc/DoublyLinkedList.hh:250-252 | `pop_head` has the same unguarded shrink step, leaving `{tail}` | stride 1, push 1, push 2, `pop_head()`, push 3: the table is `{node 3}` | guard the shrink with `_len > 1` | not executed; follows from the code | Findings.PopHeadThenPush | Findings.PopHeadFixedValid |
| src/inc/DoublyLinkedList.hh:300-305 | `resize` on a single node records it once: the loop does not run and only the final `push_back` does | one value, `resize(1)`, push 2: the table is `{node 2}` | a single node keeps `{head, head}` | not executed; follows from the code | Findings.ResizeThenPush | Findings.ResizeFixedValid |
| src/inc/DoublyLinkedList.hh:298-300 | `resize` on an empty list reads `curr->next` with `curr == nullptr`; the model's `DoublyLinkedList.Resize` therefore requires a non-empty list, and `Findings.ResizeStartsAtNull` shows the walk's start is null | `resize(2)` on a new list | an empty list only changes its stride | not executed; follows from the code | Findings.ResizeStartsAtNull | Findings.ResizeFixedValid |
| src/inc/DoublyLinkedList.hh:360-361 | `sort` ends with `resize(_size)`, so a single node is left with a one-entry table | one value, `sort()`, push 2: the table is `{node 2}` | lists shorter than two are left alone | not executed; follows from the code | Findings.SortThenPush | Findings.SortFixedValid |
| src/inc/DoublyLinkedList.hh:271-273 | `pop(pos)` deletes the node, then moves slot `pos / _size` forward by reading `next` of that deleted node when `pos % _size == 0` | stride 1, values 1 2 3, `pop(1)`: slot 1 names the deleted node | the slot moves to the removed node's successor, read before `delete` | not executed; use after free | Findings.PopReadsRemovedNode | DoublyLinkedList.PopInsideValid |
| src/inc/DoublyLinkedList.hh:364-371 | `operator=` clears the receiver before reading `other`, so `a = a` reads an empty list | values 1 2, `a = a`: `a` is empty | self-assignment changes nothing | not executed; follows from the code | Findings.AssignAliasedEmpties | Findings.AssignCheckedElems |
