# Singly-linked list with head, tail and size

A model of `LinkedList<T>` from the JavaDSA repository: a generic
singly-linked list whose cells (`Node { data, next }`) are updated in place,
with a `head` reference, a `tail` reference for constant-time appends, and a
running `size`.

`linked_list.dfy` (module `SinglyLinked`) holds the `Node` and `LinkedList`
classes. `isEmpty` and `getSize` are functions of the fields. Every other
list operation is a method over the real fields `head`, `tail`, `size` and
the cells' `next` pointers, and its contract relates the ghost sequence
`Contents` (the elements, in order) to its old value. The ghost
sequence `Nodes` is the chain of cells reachable from `head`, and `Repr` is the
set of objects the list uses. The range check `isIndexInRange` is the
predicate `IsIndexInRange`, which the contracts use. It accepts one position
past the last element.

Some of the source's paths leave the list in a state where `tail` or `size`
no longer agree with the chain. The model follows them, so it has three
object invariants, each stronger than the last:

- `Linked()`: the chain from `head` is null-terminated and repeats no cell.
  `tail` is either the chain's last cell or a cell that is not on the chain.
- `Counted()`: `Linked()`, and `size` is the length of the chain.
- `Valid()`: `Counted()`, and `tail` is the last cell (null when empty).

The constructor establishes `Valid()`, and the operations keep it on the
paths the contracts state. The source has the following defects, which the
contracts state and `scenarios.dfy` exhibits. Only the first one loses
`Valid()`:

- Removing the only element through `removeFirstElement` advances `head` but
  never clears `tail`. `deleteAtIndex(0)` goes the same way. The result is
  `Counted()` but not `Valid()`: `tail` still refers to the removed cell.
  `addAtHead` then keeps that stale `tail`, because it only sets `tail` when
  `tail` is null. A later `addAtTail` hangs its new cell on the detached
  cell. The list then reports size 2 while the chain holds one element.
  Reading index 1 fails with "Node not found", and `getLastElement` returns a
  value the list does not hold (`Scenarios.StaleTailAfterEmptying`).
- `removeLastElement` on a one-element list looks up the cell at index -1,
  gets null, and dereferences it. No field is written first, so the model
  returns `Err(NullPointer)` and leaves the list unchanged.
- `getElementAtIndex(size)` passes the range check, which accepts `size`.
  It then fails with the "Node not found" NullPointerException, not with
  IndexOutOfBoundsException.

The javadoc of `removeLastElement` (LinkedList.java:196-199) promises
`true` for every non-empty list. Line 204 dereferences null when the list
has one element, and the model follows the code.

Java exceptions are failure outcomes: `Result<T> = Ok(value) | Err(error)`,
where the error is `IndexOutOfBounds`, `NullPointer` or `NoSuchElement`. The
`IllegalArgumentException` branch of `addAtIndex` is proved unreachable from
a `Valid()` list. After the stale-tail path it can be reached: `addAtTail(1)`,
`removeFirstElement()`, `addAtHead(2)`, `addAtTail(3)`, `addAtTail(4)` leaves
size 3 over a chain of one cell. `addAtIndex(2, v)` then passes the range
check, finds no cell at index 1 and throws (`Scenarios.InsertionPointMissing`
shows that state).

`scenarios.dfy` (module `Scenarios`) holds the client side. It has two
properties over every valid list: insert-then-read and delete-then-read. It
also replays the unit tests' call sequences and states what they observe.

## Model

| member | source | states |
|---|---|---|
| `SinglyLinked.Node.constructor` | src/main/java/org/skyline/datastructure/linkedlist/LinkedList.java:20-27 | a new cell holds the given element and successor |
| `SinglyLinked.LinkedList.constructor` | src/main/java/org/skyline/datastructure/linkedlist/LinkedList.java:33-37 | a new list is valid and empty, with a fresh footprint |
| `SinglyLinked.IsIndexInRange` | src/main/java/org/skyline/datastructure/linkedlist/LinkedList.java:45-47 | for a non-negative size, accepts every element position and one more, the position equal to the size; for a negative size, accepts nothing |
| `SinglyLinked.LinkedList.IsEmpty` | src/main/java/org/skyline/datastructure/linkedlist/LinkedList.java:54-56 | a null head means no elements; with a correct count, it also means size 0 |
| `SinglyLinked.LinkedList.GetSize` | src/main/java/org/skyline/datastructure/linkedlist/LinkedList.java:63-65 | with a correct count, the result is the number of elements and is 0 exactly when the list is empty |
| `SinglyLinked.LinkedList.WalkAlongChain` | src/main/java/org/skyline/datastructure/linkedlist/LinkedList.java:16-31 | following k links from the j-th cell reaches the (j+k)-th cell, or null past the end |
| `SinglyLinked.LinkedList.SizeCountsReachableCells` | src/main/java/org/skyline/datastructure/linkedlist/LinkedList.java:29-31 | `size` links from head reach null and no fewer do; in a valid list, `size - 1` links reach `tail` |
| `SinglyLinked.LinkedList.GetNodeAtIndex` | src/main/java/org/skyline/datastructure/linkedlist/LinkedList.java:73-82 | null when the list is empty or the index is outside [0, size]; otherwise the cell `index` links from head, which is null when the index equals the size; with a correct count it is the cell holding `Contents[index]` |
| `SinglyLinked.LinkedList.AddAtHead` | src/main/java/org/skyline/datastructure/linkedlist/LinkedList.java:89-95 | contents become `[x] + old`, size grows by one, and `tail` is set only if it was null; a valid list stays valid, and a stale tail stays stale |
| `SinglyLinked.LinkedList.AddAtTail` | src/main/java/org/skyline/datastructure/linkedlist/LinkedList.java:102-111 | on an empty list the new cell is head and tail; with `tail` on the chain, contents become `old + [x]`; with a detached `tail`, the cell hangs off it, contents stay unchanged and size still grows; a valid list stays valid |
| `SinglyLinked.LinkedList.AddAtIndex` | src/main/java/org/skyline/datastructure/linkedlist/LinkedList.java:120-137 | succeeds exactly for 0 <= index <= size; then contents become `old[..index] + [x] + old[index..]` and index `index` holds x; otherwise nothing changes; validity is kept |
| `SinglyLinked.LinkedList.InsertInside` | src/main/java/org/skyline/datastructure/linkedlist/LinkedList.java:130-136 | for 0 < index < size, the new cell is spliced in after the cell at `index - 1`; contents become `old[..index] + [x] + old[index..]` and the list stays valid; the null check before the splice never fires |
| `SinglyLinked.LinkedList.GetElementAtIndex` | src/main/java/org/skyline/datastructure/linkedlist/LinkedList.java:147-156 | IndexOutOfBounds when the list is empty or the index is outside [0, size]; the element at the index when the chain reaches it; NullPointer otherwise, including index == size |
| `SinglyLinked.LinkedList.GetFirstElement` | src/main/java/org/skyline/datastructure/linkedlist/LinkedList.java:164-169 | NoSuchElement on an empty list, else the first element |
| `SinglyLinked.LinkedList.GetLastElement` | src/main/java/org/skyline/datastructure/linkedlist/LinkedList.java:177-182 | NoSuchElement on an empty list, else the data of the `tail` cell, which is the last element in a valid list |
| `SinglyLinked.LinkedList.RemoveFirstElement` | src/main/java/org/skyline/datastructure/linkedlist/LinkedList.java:189-194 | false and no change on an empty list; otherwise contents become `old[1..]` and `tail` is untouched; validity is kept unless the list had one element, in which case it is lost |
| `SinglyLinked.LinkedList.RemoveLastElement` | src/main/java/org/skyline/datastructure/linkedlist/LinkedList.java:201-208 | `Ok(false)` with no change on an empty list; `Err(NullPointer)` with no change on a one-element list; otherwise `Ok(true)` with contents `old[..size-1]` and a valid list |
| `SinglyLinked.LinkedList.RemoveElementInTheMiddle` | src/main/java/org/skyline/datastructure/linkedlist/LinkedList.java:216-221 | for 0 < index < size - 1, contents become `old[..index] + old[index+1..]`, the list stays valid, and the result is true |
| `SinglyLinked.LinkedList.DeleteAtIndex` | src/main/java/org/skyline/datastructure/linkedlist/LinkedList.java:229-237 | succeeds exactly for 0 <= index < size; then contents become `old[..index] + old[index+1..]`; otherwise nothing changes; the list stays valid unless its only element was deleted |
| `Scenarios.InsertThenRead` | src/main/java/org/skyline/datastructure/linkedlist/LinkedList.java:120-156 | on any valid list, inserting x at a valid index and reading that index returns x |
| `Scenarios.DeleteThenRead` | src/main/java/org/skyline/datastructure/linkedlist/LinkedList.java:229-237 | on any valid list, after deleting index i, index i holds the old element i+1 and the size is one less |
| `Scenarios.NumbersFixture` | src/test/java/org/skyline/dsa/datastructures/LinkedListTest.java:23-26 | four tail insertions into a new list give a valid list holding [1, 99, 250, 50] |
| `Scenarios.LanguagesFixture` | src/test/java/org/skyline/dsa/datastructures/LinkedListTest.java:28-31 | four tail insertions into a new list give a valid list holding ["Java", "Go", "TypeScript", "C++"] |
| `Scenarios.TailInsertions` | src/test/java/org/skyline/dsa/datastructures/LinkedListTest.java:129-162 | after appending 1, 99, 250, 50: index 2 is 250, first is 1, last is 50, size is 4 |
| `Scenarios.ReadPastTheEnd` | src/main/java/org/skyline/datastructure/linkedlist/LinkedList.java:147-156 | on a two-element list, reading index 2 is NullPointer, while indices 3 and -1 are IndexOutOfBounds |
| `Scenarios.HeadInsertions` | src/test/java/org/skyline/dsa/datastructures/LinkedListTest.java:76-84 | the integer half: after inserting 10 at the head it is first; after 20, 30, 40 the first is 40 and index 3 is 10 |
| `Scenarios.HeadInsertionsOfStrings` | src/test/java/org/skyline/dsa/datastructures/LinkedListTest.java:86-88 | the string half: after "Car" and "Xbox" at the head, the first is "Xbox" |
| `Scenarios.InsertAtIndices` | src/test/java/org/skyline/dsa/datastructures/LinkedListTest.java:107-117 | the integer half: inserting 200 at 1 and 400 at 3 into [100, 300, 500] puts them at those indices; index 6 is also refused |
| `Scenarios.InsertAtEnds` | src/test/java/org/skyline/dsa/datastructures/LinkedListTest.java:119-125 | the string half: on ["Car", "Xbox"], inserting "CPU" at 0 goes through the head insertion and "CAR" at 3 through the tail insertion; each is read back at its index |
| `Scenarios.RemoveFirstUntilEmpty` | src/test/java/org/skyline/dsa/datastructures/LinkedListTest.java:165-190 | removing from the front leaves "C++" first, then an empty list whose further removal returns false, with size 0; `tail` is still set |
| `Scenarios.StaleTailAfterEmptying` | src/main/java/org/skyline/datastructure/linkedlist/LinkedList.java:89-111 | append 1, remove first, insert 2 at the head, append 3: size is 2, index 1 is NullPointer, and the last element read is 3, which is not in the list |
| `Scenarios.RemoveLastThreeTimes` | src/test/java/org/skyline/dsa/datastructures/LinkedListTest.java:193-201 | the integer half: removing the last of [1, 99, 250, 50] leaves 250 last; two more removals leave size 1 |
| `Scenarios.RemoveLastOfStrings` | src/test/java/org/skyline/dsa/datastructures/LinkedListTest.java:203-205 | the string half: removing the last of the four strings leaves "TypeScript" last and size 3 |
| `Scenarios.InsertionPointMissing` | src/main/java/org/skyline/datastructure/linkedlist/LinkedList.java:120-133 | after the stale-tail path and one more tail insertion, the size is 3, index 2 passes the range check, and the cell before it is null: the state in which the insertion throws |
| `Scenarios.RemoveLastOfSingleton` | src/main/java/org/skyline/datastructure/linkedlist/LinkedList.java:201-208 | removing the last element of a one-element list is NullPointer, and the element stays |
| `Scenarios.DeleteAtIndices` | src/test/java/org/skyline/dsa/datastructures/LinkedListTest.java:209-217 | deleting index 0 of [1, 99, 250, 50] leaves 99 first, then deleting index 2 leaves 250 last and size 2 |
| `Scenarios.SizesAfterMiddleDeletions` | src/test/java/org/skyline/dsa/datastructures/LinkedListTest.java:50-63 | four head insertions give size 4; deleting indices 1 and 2 gives size 2 |
| `Scenarios.SizesAfterEndDeletions` | src/test/java/org/skyline/dsa/datastructures/LinkedListTest.java:65-72 | three head insertions give size 3; deleting indices 0 and 1 gives size 1 |

## Left out

- Integer width: `size` and indices are unbounded integers. The 32-bit overflow of `size` after 2^31 insertions is not modelled.
- Garbage collection: removed cells stay in `Repr`. Reclamation is not modelled.
- Concurrency: the class has no synchronisation, and the model is single-threaded.
- Exception classes: they are represented only as the three `Exception` values that the list raises. Java's stack unwinding is not modelled.
- `SinglyLinked.LinkedList.AddAtIndex`, `SinglyLinked.LinkedList.RemoveLastElement` and `SinglyLinked.LinkedList.DeleteAtIndex` are specified only from a `Valid()` list. What they do from a list whose `tail` is stale is not modelled. This covers the state `Scenarios.RemoveFirstUntilEmpty` reaches, where the count is still right, and the states after a later `addAtTail`, where the count exceeds the chain. In particular the `IllegalArgumentException` that `addAtIndex` throws in the state `Scenarios.InsertionPointMissing` reaches is not modelled.
- `SinglyLinked.LinkedList.RemoveFirstElement` is specified only from a `Counted()` list. What it does once the count exceeds the chain is not modelled.
- `SinglyLinked.LinkedList.RemoveElementInTheMiddle` requires 0 < index < size - 1, which is what its only caller guarantees. Its behaviour outside that range is not modelled: a null dereference at index 0, and a stale tail at index size - 1.
- The two Java `Node` constructors are one constructor. `Node(data)` is the constructor with a null successor.
