# Linked lists, verified in Dafny

This project models the three hand-linked list containers of the `linkedlists`
package and proves each operation against an abstract view of the list.

- `DoublyLinkedList` is a chain bounded by two permanent sentinels, `header` and `trailer`.
  Every insertion goes through `addBetween` and every removal through `remove`.
  `concat` splices a second list onto the first.
- `CircularlyLinkedList` is a ring reached through one `tail` reference.
  The node after `tail` is the first element.
  It supports rotation, insertion at either end, removal at the front, a ring walk and an iterator.
- `SingleLinkedList` is a forward chain with `head`, `tail` and `size`.
  It supports indexed lookup, an element swap, appending and rendering.

Each list is a Dafny `class` with the same fields as the Java class.
Each Java node class is a Dafny `Node` class.
Every list also carries two ghost fields:
- `Nodes`, the chain of node objects in list order;
- `Contents`, the elements in list order.

`Valid()` is the pointer-shape invariant. It ties the real fields to `Nodes` and `Contents`:
- doubly-linked: sentinels at both ends, prev/next consistency, distinct nodes, `size` counting the real nodes;
- circular: a closed ring of `size` distinct nodes ending at `tail`;
- singly-linked: a null-terminated chain from `head` to `tail`.

Every mutating list operation keeps `Valid()` and states its new `Contents` as a
sequence operation on the old one. There are two exceptions:
- `DoublyLinked.DoublyLinkedList.Remove` is the pointer-level unlinking step. It
  states only the new links and `size`, because `Concat` also applies it to sentinels.
- `SingleLinked.SingleLinkedList.AddFirstAsWritten` models the defective `addFirst`.
  It is proved to break `Valid()`.

`toString` methods take the element rendering as a parameter `render`, because
Java's `Object.toString` is not part of the model.
Each is proved equal to `"(" + Joined(...) + ")"` over the rendered contents.

Files:
- `common.dfy` (module `Common`): the absent and error results, and the rendering functions.
- `doubly_linked.dfy` (module `DoublyLinked`).
- `circularly_linked.dfy` (module `CircularlyLinked`).
- `single_linked.dfy` (module `SingleLinked`).

Where the code and its documentation disagree, the model follows the code:
- `CircularlyLinkedList.toString` appends the elements with no separator, for example `(LAXMSPATLBOS)`.
  The comment in `main` shows `(LAX, MSP, ATL, BOS)`.
- `getElementAt` throws `IllegalArgumentException("Index(es) out of range.")`.
  The error carries only that message, not the index or the bound.

## Model

| member | source | states |
|---|---|---|
| `Common.JoinedAppend` | src/linkedlists/DoublyLinkedList.java:138-143 | joining two non-empty runs of parts gives the two joins with exactly one separator between them, as the loop appends a separator only between neighbouring elements |
| `Common.JoinedCons` | src/linkedlists/SingleLinkedList.java:81-91 | the rendering read front to back: the first element, the separator, then the rest |
| `Common.RenderedAppend` | src/linkedlists/DoublyLinkedList.java:135-146 | rendering commutes with concatenating element sequences |
| `Common.RenderedJoinedAppend` | src/linkedlists/DoublyLinkedList.java:135-146 | the text of a list holding `a + b`, both non-empty, is the texts of `a` and `b` inside one pair of brackets with one `", "` between them, so after `Concat` the list prints as the two old lists joined |
| `DoublyLinked.Node.constructor` | src/linkedlists/DoublyLinkedList.java:190-194 | a node holds exactly the given prev link, element and next link |
| `DoublyLinked.DoublyLinkedList.constructor` | src/linkedlists/DoublyLinkedList.java:44-48 | a new list is valid and empty: `header.next == trailer`, `trailer.prev == header`, no outer links, `size == 0` |
| `DoublyLinked.DoublyLinkedList.FromElements` | src/linkedlists/DoublyLinkedList.java:54-60 | repeated `addLast` yields contents equal to `elements` in order, with `size` equal to the number of elements |
| `DoublyLinked.DoublyLinkedList.IsEmpty` | src/linkedlists/DoublyLinkedList.java:68 | true exactly when the list holds no element |
| `DoublyLinked.DoublyLinkedList.AddBetween` | src/linkedlists/DoublyLinkedList.java:91-96 | a fresh node is linked in between two adjacent nodes; contents gain `e` at that position, `size` rises by one, both sentinels stay, the invariant holds |
| `DoublyLinked.DoublyLinkedList.AddFirst` | src/linkedlists/DoublyLinkedList.java:73-76 | contents become `[e] + old`, `size` rises by one, sentinels unchanged, invariant kept |
| `DoublyLinked.DoublyLinkedList.AddLast` | src/linkedlists/DoublyLinkedList.java:81-84 | contents become `old + [e]`, `size` rises by one, sentinels unchanged, invariant kept |
| `DoublyLinked.DoublyLinkedList.Remove` | src/linkedlists/DoublyLinkedList.java:122-129 | the present neighbours of `node` are linked to each other; `size` drops only when both neighbours are present, so unlinking a sentinel keeps the count; returns the node's element |
| `DoublyLinked.DoublyLinkedList.RemoveFirst` | src/linkedlists/DoublyLinkedList.java:102-106 | on an empty list: None, nothing changed; otherwise: returns `old[0]`, leaves `old[1..]`, `size` drops by one, invariant kept |
| `DoublyLinked.DoublyLinkedList.RemoveLast` | src/linkedlists/DoublyLinkedList.java:111-115 | on an empty list: None, nothing changed; otherwise: returns the last element, leaves all but the last element, `size` drops by one |
| `DoublyLinked.DoublyLinkedList.ToString` | src/linkedlists/DoublyLinkedList.java:135-146 | the walk from `header.next` up to `trailer` yields `"("` + rendered elements joined by `", "` + `")"`; `"()"` when empty |
| `DoublyLinked.DoublyLinkedList.Concat` | src/linkedlists/DoublyLinkedList.java:153-168 | returns `this` with contents `old(this) + second`, `size` the sum, `header` kept, `trailer` taken from `second`, invariant kept, also when either list is empty |
| `DoublyLinked.ConcatDemo` | src/linkedlists/DoublyLinkedList.java:153-168 | concatenating `(A, B)` and `(C, D)` renders `(A, B, C, D)` with size 4 |
| `DoublyLinked.FifoDemo` | src/linkedlists/DoublyLinkedList.java:102-106 | elements added with `addLast` leave `removeFirst` in insertion order, then None once the list is empty |
| `CircularlyLinked.Node.constructor` | src/linkedlists/CircularlyLinkedList.java:11-14 | a node holds exactly the given element and next link |
| `CircularlyLinked.CircularlyLinkedList.constructor` | src/linkedlists/CircularlyLinkedList.java:30-34 | a new ring is valid and empty, with no tail |
| `CircularlyLinked.CircularlyLinkedList.Size` | src/linkedlists/CircularlyLinkedList.java:36-38 | the number of elements in the ring |
| `CircularlyLinked.CircularlyLinkedList.IsEmpty` | src/linkedlists/CircularlyLinkedList.java:39-41 | true exactly when the ring holds no element |
| `CircularlyLinked.CircularlyLinkedList.First` | src/linkedlists/CircularlyLinkedList.java:42-45 | None when empty, otherwise the element of `tail.next`, which is `Contents[0]` |
| `CircularlyLinked.CircularlyLinkedList.Last` | src/linkedlists/CircularlyLinkedList.java:46-49 | None when empty, otherwise the element of `tail`, the last of `Contents` |
| `CircularlyLinked.CircularlyLinkedList.Rotate` | src/linkedlists/CircularlyLinkedList.java:50-53 | a non-empty ring becomes `s[1..] + [s[0]]`; an empty ring is unchanged; `size` unchanged |
| `CircularlyLinked.RotatedFullCircle` | src/linkedlists/CircularlyLinkedList.java:50-53 | rotating a ring `size` times restores its original order |
| `CircularlyLinked.RotatedTimesSplit` | src/linkedlists/CircularlyLinkedList.java:50-53 | `k` rotations (`k <= size`) move the first `k` elements behind the rest |
| `CircularlyLinked.CircularlyLinkedList.AddFirst` | src/linkedlists/CircularlyLinkedList.java:54-63 | contents become `[e] + old` and `size` rises by one; on an empty ring the single node is its own successor; otherwise `tail`, so `last()`, is unchanged |
| `CircularlyLinked.RotatedPrepend` | src/linkedlists/CircularlyLinkedList.java:65-68 | prepending then rotating once appends |
| `CircularlyLinked.CircularlyLinkedList.AddLast` | src/linkedlists/CircularlyLinkedList.java:65-68 | contents become `old + [e]`, and `tail` is the new node, so `last() == e` |
| `CircularlyLinked.CircularlyLinkedList.RemoveFirst` | src/linkedlists/CircularlyLinkedList.java:69-76 | None on an empty ring, nothing changed; otherwise returns the old first element, leaves `old[1..]`, `size` drops by one; removing the only element clears `tail` |
| `CircularlyLinked.CircularlyLinkedList.RingClosed` | src/linkedlists/CircularlyLinkedList.java:54-76 | in every valid ring, following `next` `size` times from `tail` returns to `tail`, passing the elements in order; every mutator keeps `Valid()` |
| `CircularlyLinked.CircularlyLinkedList.ToString` | src/linkedlists/CircularlyLinkedList.java:77-88 | `"()"` without a tail, otherwise `"("` + the elements from `tail.next` round to `tail` with no separator + `")"` |
| `CircularlyLinked.CircularlyLinkedList.Iterator` | src/linkedlists/CircularlyLinkedList.java:90-92 | a fresh iterator over this ring, positioned before the first element |
| `CircularlyLinked.ElementIterator.constructor` | src/linkedlists/CircularlyLinkedList.java:98-102 | the cursor starts at 0, with its node pointer on `tail` |
| `CircularlyLinked.ElementIterator.HasNext` | src/linkedlists/CircularlyLinkedList.java:104-106 | true exactly while fewer than `size` elements have been returned |
| `CircularlyLinked.ElementIterator.Next` | src/linkedlists/CircularlyLinkedList.java:108-112 | returns the element at the cursor position in ring order and advances the cursor by one |
| `CircularlyLinked.CircularlyLinkedList.Elements` | src/linkedlists/CircularlyLinkedList.java:94-113 | iterating until `hasNext` is false yields exactly the `size` elements in ring order, starting at `tail.next` |
| `CircularlyLinked.AirportRing` | src/linkedlists/CircularlyLinkedList.java:117-122 | `addFirst(LAX)` and then `addLast` of MSP, ATL and BOS iterate as LAX, MSP, ATL, BOS and render `(LAXMSPATLBOS)`; one rotation gives `(MSPATLBOSLAX)` |
| `SingleLinked.Node.constructor` | src/linkedlists/SingleLinkedList.java:103-105 | a node holds the element and no successor |
| `SingleLinked.Node.WithNext` | src/linkedlists/SingleLinkedList.java:107-110 | a node holds the element and the given successor |
| `SingleLinked.SingleLinkedList.constructor` | src/linkedlists/SingleLinkedList.java:5-11 | a new list is valid and empty, with head and tail absent |
| `SingleLinked.SingleLinkedList.FromElementsAsWritten` | src/linkedlists/SingleLinkedList.java:13-21 | the element-array constructor as written always fails: index -1 for a non-empty input, index 0 for an empty one |
| `SingleLinked.SingleLinkedList.FromElements` | src/linkedlists/SingleLinkedList.java:13-21 | the element-array constructor as intended: contents equal the input in order, and an empty input gives an empty list |
| `SingleLinked.SingleLinkedList.IsEmpty` | src/linkedlists/SingleLinkedList.java:24-26 | true exactly when the list holds no element |
| `SingleLinked.SingleLinkedList.First` | src/linkedlists/SingleLinkedList.java:28-31 | None when empty, otherwise the element of `head`, which is `Contents[0]` |
| `SingleLinked.SingleLinkedList.Last` | src/linkedlists/SingleLinkedList.java:33-36 | None when empty, otherwise the element of `tail`, the last of `Contents` |
| `SingleLinked.SingleLinkedList.AddLast` | src/linkedlists/SingleLinkedList.java:38-43 | on a non-empty list: contents become `old + [e]`, `tail` is the new node, `size` rises by one, `head` unchanged |
| `SingleLinked.SingleLinkedList.AddFirstAsWritten` | src/linkedlists/SingleLinkedList.java:45-48 | `addFirst` as written raises `size` but leaves `head` and `tail` alone, so every valid list becomes invalid |
| `SingleLinked.SingleLinkedList.AddFirst` | src/linkedlists/SingleLinkedList.java:45-48 | `addFirst` as intended: contents become `[e] + old`, the new node is `head`, `size` rises by one |
| `SingleLinked.SingleLinkedList.GetElementAt` | src/linkedlists/SingleLinkedList.java:72-79 | fails with IllegalArgument exactly when `index < 0` or `index > size - 1`; otherwise returns the node `index` steps from `head`, whose element is `Contents[index]` |
| `SingleLinked.SingleLinkedList.SwapNode` | src/linkedlists/SingleLinkedList.java:56-64 | fails exactly when either index is out of range, and then nothing is written; otherwise `contents[i]` and `contents[j]` are exchanged, with nodes, links and `size` unchanged |
| `SingleLinked.Swapped` | src/linkedlists/SingleLinkedList.java:61-63 | the swap exchanges the two positions and leaves every other element |
| `SingleLinked.SwappedSame` | src/linkedlists/SingleLinkedList.java:56-64 | `swapNode(i, i)` changes nothing |
| `SingleLinked.SwappedPermutes` | src/linkedlists/SingleLinkedList.java:56-64 | a swap is a permutation, symmetric in its two indices, and undone by repeating it |
| `SingleLinked.SingleLinkedList.ToString` | src/linkedlists/SingleLinkedList.java:81-91 | `"("` + the first `size` elements from `head` joined by `", "` + `")"`; `"()"` when `size == 0` |
| `SingleLinked.SwapDemo` | src/linkedlists/SingleLinkedList.java:56-64 | swapping the ends of `(A, B, C)` gives `(C, B, A)`; `swapNode(1, 1)` succeeds; indices -1 and 3 fail |

## Findings

| source | as written | input that shows it | evidently intended | confidence | as-written member | corrected member |
|---|---|---|---|---|---|---|
| src/linkedlists/SingleLinkedList.java:45-48 | `addFirst` allocates a node pointing at `head` but links it nowhere, then raises `size` | an empty list, then `addFirst(A)`: `size` is 1, but `head` and `tail` stay null | the new node becomes `head`, and also `tail` when the list was empty | high; not executed | `SingleLinked.SingleLinkedList.AddFirstAsWritten` | `SingleLinked.SingleLinkedList.AddFirst` |
| src/linkedlists/SingleLinkedList.java:13-21 | the first loop counts `i` down from 0, and line 19 reads `eArray[0]` unconditionally | input `(A)` indexes `eArray[-1]`; the empty input indexes `eArray[0]` of an empty array | one node per element, linked in input order; an empty input gives an empty list | high; not executed | `SingleLinked.SingleLinkedList.FromElementsAsWritten` | `SingleLinked.SingleLinkedList.FromElements` |

## Left out

- `SingleLinked.SingleLinkedList.AddLast`: requires a non-empty list, because line 40 of src/linkedlists/SingleLinkedList.java dereferences a null `tail` when the list is empty.
- `CircularlyLinked.ElementIterator.Next`: requires `HasNext()`, because the Java method has no guard past the end. Changing the ring while an iteration is in progress is not modelled: the iterator's invariant includes the ring's.
- `DoublyLinked.DoublyLinkedList.Concat`: requires that the two lists share no node and are different objects, because each list owns its nodes. The state of the consumed second list afterwards is not described, because it must not be used again.
- Java exceptions are results rather than throws. `IllegalArgumentException` and array index errors become `Failure`/`Fail` values. The null-pointer failure of `addLast` on an empty list is excluded by its precondition.
- Elements are never null. Java's `null` results for empty queries are modelled as `None`, and the sentinels' null element is `None`.
- Element rendering (`Object.toString`) is the parameter `render` of the `ToString` methods. Only the brackets, the separators and the order are modelled.
- `size` is an unbounded integer. Java's 32-bit `int` would wrap after 2^31 - 1 insertions; that is not modelled.
- `main` in src/linkedlists/CircularlyLinkedList.java only prints. Its list construction is `CircularlyLinked.AirportRing`, and its two loops are `CircularlyLinked.CircularlyLinkedList.Elements`.
- The unused import of `javax.swing.text.ElementIterator` has no behaviour.
- These accessors are plain field reads or writes in the model and have no members of their own:
  - the node getters and setters;
  - `getHeader`, `getTrailer` and `getSize` of `DoublyLinkedList`;
  - `getHead`, `getTail` and `getSize` of `SingleLinkedList`.
- `setHead`, `setTail` and `setSize` of `SingleLinkedList` are public setters that bypass every invariant. They are not modelled.
- The no-argument `Node()` constructor of `SingleLinkedList` is never called. It is not modelled.
