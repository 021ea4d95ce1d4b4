# Min-heap and stacks, modelled in Dafny

This project models two small in-memory containers from a JavaScript
algorithms repository and proves their properties:

- **MinHeap** (`min_heap.dfy`, module `MinHeap`): a priority queue kept as an
  implicit binary tree in a flat array. Slot 0 is a dead placeholder, and the
  numbers sit in slots 1..n. The parent of slot i is i / 2 and its children
  are 2i and 2i + 1. `top` reads slot 1. `insert` appends the number and sifts
  it up, swapping with its parent while it is strictly smaller.
- **Stack** in two realizations with the same operations: `push`, `pop`,
  `peek`, `isEmpty` and `size`.
  - `ArrayStack` (`array_stack.dfy`) keeps a sequence whose last item is the top.
  - `LinkedListStack` (`linked_list_stack.dfy`) keeps a singly linked chain of
    `StackNode`s and a separate `length` counter.
  - `StackEquivalence` (`stack_equivalence.dfy`) relates the two. Reading the
    chain from its head gives the array read backwards. Under that
    correspondence both stacks answer every sequence of operations alike.

`wrappers.dfy` defines the `Option` type. It stands for the `null` /
`undefined` the containers return when they are empty.

Modelling choices:

- The heap is a `seq<int>`. Slot 0 holds the integer `Placeholder` in place of
  `null`. Nothing reads it, and `Insert` provably leaves it unchanged. A heap
  always has this slot, so `|h| >= 1` is a precondition.
- The source lets a caller overwrite the heap array with a seeded array and
  does not check it. The model therefore states heap order as a hypothesis,
  `IsHeap(h) ==> IsHeap(Insert(h, num))`, and does not require it.
- Sift-up is defined twice. `SiftUp` is a pure recursive function in which one
  call is one loop iteration. The heap-order, permutation and size facts are
  proved about it. `InsertLoop` is the imperative `while` loop. Its invariant
  proves that it computes exactly `Insert`, and a ghost counter bounds the
  swaps by floor(log2 n).
- The source's loop guard compares values before it checks `parentIdx >= 1`.
  When the parent index is 0, this compares a number against `null`. The `&&`
  makes the guard false either way, so the model checks the index first.
- The linked stack's `length` is a plain integer that could in principle drift
  from the chain. `LinkedListStack.Valid` states that it matches the chain, and
  every operation is proved to preserve that.
- `return this` (method chaining) and the array `push`'s missing return value
  are both modelled as an observation that carries no value (`Done`). The doc
  comment of the array `push` says it returns the new length, but the code at
  week04/day01/Stack.js:27 returns nothing. The model follows the code.
- Inserting 1 into the seeded heap 2, 5, 8, 10, 12, 15, 20 of the demo at
  week03/day01/MinHeap.js:90-95 gives `[_,1,2,8,5,12,15,20,10]`: the 1 enters
  slot 8 and rises through slots 4, 2 and 1 (`MinHeap.SeededInsertExample`).

## Model

| member | source | states |
|---|---|---|
| `MinHeap.Parent` | week03/day01/MinHeap.js:21-23 | The parent index p is the floor of i / 2 (2p <= i <= 2p + 1), and for every slot i >= 2 it lies in 1..i-1, so walking up always reaches the root |
| `MinHeap.LeftChild` | week03/day01/MinHeap.js:25-27 | The parent of the left child of i is i again, and for i >= 1 the child lies after i |
| `MinHeap.RightChild` | week03/day01/MinHeap.js:29-31 | The parent of the right child of i is i again, and it sits right after the left child |
| `MinHeap.Empty` | week03/day01/MinHeap.js:12-19 | A new heap holds only the placeholder: it stores no numbers and is trivially heap-ordered |
| `MinHeap.RootIsMinimum` | week03/day01/MinHeap.js:33-42 | In a heap-ordered array, slot 1 is no larger than any occupied slot (induction up the parent chain) |
| `MinHeap.RootBoundsElements` | week03/day01/MinHeap.js:33-42 | In a non-empty heap, slot 1 is one of the stored numbers and is no larger than any of them |
| `MinHeap.Top` | week03/day01/MinHeap.js:39-42 | `top` returns none exactly when no number is stored. Otherwise it returns a stored number, and on a heap that number is the least one |
| `MinHeap.Swap` | week03/day01/MinHeap.js:63 | The destructuring swap keeps the length, exchanges the contents of the two slots and leaves every other slot alone |
| `MinHeap.SwapPermutes` | week03/day01/MinHeap.js:63 | The destructuring swap keeps the multiset of contents |
| `MinHeap.SwapUpKeepsOrder` | week03/day01/MinHeap.js:62-65 | One loop iteration, which swaps a smaller child with its parent, moves the single order defect one level up toward the root |
| `MinHeap.StopKeepsOrder` | week03/day01/MinHeap.js:62 | When the loop guard fails (no parent, or the parent is not larger), the array is fully heap-ordered |
| `MinHeap.SiftUp` | week03/day01/MinHeap.js:62-66 | The sift-up loop keeps the length and slot 0, and turns "ordered except at the moving slot" into full heap order |
| `MinHeap.SiftUpPermutes` | week03/day01/MinHeap.js:61-65 | The sift-up only swaps, so the array's contents stay the same multiset |
| `MinHeap.Insert` | week03/day01/MinHeap.js:53-68 | Insert adds exactly one slot. The stored numbers become the old ones plus `num`, and slot 0 is never written. Into an empty heap it gives exactly `[_, num]`, and a heap stays a heap |
| `MinHeap.TopAfterInsert` | week03/day01/MinHeap.js:39-66 | After inserting into a heap, `top` is `num` if the heap was empty, and otherwise the smaller of the old top and `num` |
| `MinHeap.InsertLoop` | week03/day01/MinHeap.js:53-68 | The imperative while loop computes exactly the result of `Insert`. It terminates because the current index halves, and it makes at most floor(log2 n) swaps |
| `MinHeap.InsertAll` | week03/day01/MinHeap.js:44-68 | Any sequence of inserts adds exactly one slot per number and stores exactly the inserted numbers on top of the old ones. A heap stays a heap |
| `MinHeap.BuildFromEmpty` | week03/day01/MinHeap.js:44-68 | Starting from a fresh heap, any inserts leave a gap-free heap of exactly the inserted numbers. `top` is none iff nothing was inserted, and otherwise it is the least inserted number |
| `MinHeap.SeededSiftUpExample` | week03/day01/MinHeap.js:90-95 | In the seeded demo array, the appended 1 rises from slot 8 through slots 4, 2 and 1, giving `[_,1,2,8,5,12,15,20,10]` |
| `MinHeap.SeededInsertExample` | week03/day01/MinHeap.js:90-95 | The seeded demo heap has top 2, and `insert(1)` turns it into `[_,1,2,8,5,12,15,20,10]` |
| `MinHeap.FreshInsertExample` | week03/day01/MinHeap.js:53-66 | Inserting 5 and then 3 into a fresh heap gives `[_,3,5]`. Inserting 5, 3, 8, 1 gives top 1 |
| `ArrayStack.Empty` | week04/day01/Stack.js:15-17 | A new array stack is empty, and its peek is none |
| `ArrayStack.Size` | week04/day01/Stack.js:66-68 | `size` is 0 exactly when the stack has no items (how it grows and shrinks is stated on `ArrayStack.Push` and `ArrayStack.Pop`) |
| `ArrayStack.IsEmpty` | week04/day01/Stack.js:56-58 | `isEmpty` holds iff the size is 0, which is iff there are no items |
| `ArrayStack.Peek` | week04/day01/Stack.js:46-48 | `peek` returns none iff the stack is empty, and otherwise the last item |
| `ArrayStack.Pop` | week04/day01/Stack.js:36-38 | On an empty stack, `pop` returns none and changes nothing. Otherwise it returns what `peek` shows, shrinks the size by one, and pushing the value back restores the items |
| `ArrayStack.Push` | week04/day01/Stack.js:26-28 | `push` grows the size by one and leaves earlier items unchanged. The pushed item becomes the top, and an immediate `pop` returns it and the stack as it was before |
| `LinkedListStack.Count` | week04/day01/Stack.js:72-77 | The number of nodes reachable from a node equals the number of items in the chain. It is 0 exactly at the null node |
| `LinkedListStack.Empty` | week04/day01/Stack.js:81-84 | A new linked stack has a null head and a zero counter, so the counter matches the chain |
| `LinkedListStack.Size` | week04/day01/Stack.js:115-117 | When the counter matches the chain, `size` is the number of items in the chain |
| `LinkedListStack.IsEmpty` | week04/day01/Stack.js:110-113 | `isEmpty` holds iff the head is null (the chain holds no items). When the counter matches the chain, this is iff `size` is 0 |
| `LinkedListStack.Peek` | week04/day01/Stack.js:105-108 | `peek` returns none iff the stack is empty, and otherwise the first item of the chain |
| `LinkedListStack.Push` | week04/day01/Stack.js:86-94 | `push` puts the new item first in the chain and leaves the old chain after it unchanged. The counter grows by one and still matches the chain |
| `LinkedListStack.Pop` | week04/day01/Stack.js:96-103 | On an empty stack, `pop` returns none and changes nothing, not even the counter. Otherwise it returns the head's data, drops exactly the first item, and decrements the counter. The counter still matches the chain |
| `LinkedListStack.PushThreeExample` | week04/day01/Stack.js:131-144 | A fresh stack is empty with size 0, and not empty after pushing 1. After pushing 1, 2, 3: `peek` is 3 and `size` is 3. `pop` returns 3, leaving size 2. The next pops return 2 and then 1, after which the stack is empty |
| `StackEquivalence.Reverse` | week04/day01/Stack.js:26-38 | Reversal keeps the length and maps index i to index n-1-i (the array's top is at the back, the chain's top at the front) |
| `StackEquivalence.ReverseReverse` | week04/day01/Stack.js:86-103 | Reversing twice gives back the original sequence |
| `StackEquivalence.Abs` | week04/day01/Stack.js:86-103 | The linked stack stands for the array stack whose items, reversed, are the chain read from its head |
| `StackEquivalence.PushRefines` | week04/day01/Stack.js:86-94 | A linked `push` corresponds to an array `push` of the same item, and the counter stays in step |
| `StackEquivalence.PopRefines` | week04/day01/Stack.js:96-103 | A linked `pop` returns the same value as an array `pop` and leaves a corresponding stack |
| `StackEquivalence.QueriesRefine` | week04/day01/Stack.js:105-117 | `peek`, `size` and `isEmpty` of the linked stack equal those of the corresponding array stack |
| `StackEquivalence.StepRefines` | week04/day01/Stack.js:86-117 | Each single operation gives the same observation on both realizations and leads to corresponding states |
| `StackEquivalence.RunArray` | week04/day01/Stack.js:26-68 | Running n operations on the array stack yields exactly n observations |
| `StackEquivalence.RunLinked` | week04/day01/Stack.js:86-117 | Running n operations on the linked stack yields exactly n observations |
| `StackEquivalence.RunsAgree` | week04/day01/Stack.js:86-117 | For every operation sequence, both realizations observe the same thing at every step and end in corresponding states, and the counter never drifts from the chain |
| `StackEquivalence.FreshStacksAgree` | week04/day01/Stack.js:81-84 | Starting from two new stacks, no operation sequence can tell the two realizations apart |
| `StackEquivalence.PushesAppend` | week04/day01/Stack.js:26-28 | Pushing p1..pn onto the array stack appends them in order and observes nothing |
| `StackEquivalence.PopsReverse` | week04/day01/Stack.js:36-38 | Popping n times from items that end in p1..pn returns pn, ..., p1 and leaves the items below |
| `StackEquivalence.ArrayLastInFirstOut` | week04/day01/Stack.js:26-38 | LIFO law: pushing p1..pn and then popping n times returns pn..p1 and restores the array stack |
| `StackEquivalence.LinkedLastInFirstOut` | week04/day01/Stack.js:86-103 | The LIFO law for the linked stack: the pops return pn..p1, the chain and counter are restored, and the counter still matches |

## Left out

- `printHorizontalTree` (week03/day01/MinHeap.js:74-87) is console output for diagnostics and is not modelled.
- `LinkedListStack.print` (week04/day01/Stack.js:119-128) builds a display string that depends on JavaScript's value-to-string conversion. It lists the chain's items from the top down, separated by ", ". It is not modelled.
- The module-level demo code (week03/day01/MinHeap.js:90-96, week04/day01/Stack.js:131-144) is I/O. Its expected values, except the `print` strings at week04/day01/Stack.js:140 and 143, are proved as the `*Example` lemmas instead.
- The heap stores `int`s. JavaScript numbers are floating point, and comparisons involving `NaN` or non-numbers are not modelled.
- JavaScript's `num < null` coercion on the placeholder slot is not modelled. The guard order described above makes it unobservable.
- Method chaining (`return this`) is not modelled. The model's operations are pure functions that return the new state.
- Mutation in place, aliasing of the heap array and object identity are not modelled. Every operation returns a new value.
- `MinHeap.InsertLoop`: the swap bound is stated on a ghost counter, because the source does not report how many swaps it made.
- Extract-min / sift-down does not exist in the source and is not modelled.
