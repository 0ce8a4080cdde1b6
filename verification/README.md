# collection2 containers in Dafny

collection2 is a header-only C++ library of fixed-capacity containers for
microcontrollers. None of its containers allocates memory: the caller
hands each one an array, and the container keeps its elements there. This
project models the five containers as pure functions over immutable
state, and proves what each operation does to the stored sequence of
elements.

- **Node pool** (`NodePool`). The list and the tree both draw nodes from the
  caller's node array. A node is acquired by scanning for the lowest-index
  slot that is not in use.
- **List** (`List`, `ListChain`, `ListGrow`, `ListShrink`, `ListSequence`,
  `RepairedList`, `ListDefects`). A doubly linked list threaded through the
  node pool.
  - `List` models `append`, `insert`, `pop`, `remove` and `get` exactly as the
    code runs, including the links it leaves stale.
  - `ListChain` relates a list state to the chain of slots from `head` to
    `tail`, and to the sequence of elements that chain stores.
  - `ListGrow` states which slots `append` and `insert` write and when the
    chain stays linked; `ListShrink` does the same for `pop` and `remove`.
  - `ListSequence` reads each of those operations as the matching operation
    on the sequence of stored elements.
  - `RepairedList` is the list with the four link defects (see Findings)
    corrected. For it, `insert`, `pop` and `remove` are proved to act as
    sequence insertion, removal of the last element, and removal at a
    position.
  - `ListDefects` replays each defect on a two-slot pool.
- **Tree** (`Tree`). A binary tree in a node pool. `appendChild` adds a fresh
  leaf under a parent, `linkNode` links any node it is given, and
  `removeChild` takes a subtree apart recursively.
- **Ring buffer** (`Ring`, `Buffer`). A power-of-two circular buffer whose
  `append` discards the oldest element when the buffer is full.
- **Queues** (`Queue`, `LegacyQueue`). The same ring, but `enqueue` refuses
  with Overflow when the queue is full. `LegacyQueue` is the older
  stand-alone copy with its own result enumeration.
- **Stack** (`Stack`). An array with a stack pointer.
- **Bits**. Integer facts the rings rely on:
  - `(i + 1) & (cap - 1)` equals `(i + 1) % cap` when `cap` is a power of two;
  - the constructors' bit search for the largest power of two not above
    the requested size.

Conventions:
- A pointer into a node array is an `Option<nat>` slot index; null is
  `None`.
- An out-parameter is a returned value.
- A result code is `OperationResult` (`Success`, `Overflow`, `Empty`).
- Sizes are unbounded naturals. Where the 16-bit size type matters (the
  capacity search), its truncation is written out.
- `removeChild` is defined on pools with ghost creation stamps (`Stamped`):
  every link of the whole pool leads to a slot created later, so no slot
  lies on a cycle. Retaining and appending keep the stamps. `linkNode`
  keeps them only when the node it links is newer than the parent.

## Model

| member | source | states |
|---|---|---|
| NodePool.FirstFree | include/collection2/list.hpp:141-145 | The scan finds no slot exactly when every slot from the start index on is in use; otherwise it finds a free slot with every slot before it in use. |
| NodePool.Acquire | include/collection2/list.hpp:140-153 | The node handed out is the lowest-index free slot, now in use with both links null and its payload kept. Every other slot is unchanged. A full pool yields null and is left as it was. |
| NodePool.AcquireReusesTheFreedSlot | include/collection2/tree.hpp:173-186 | When exactly one slot is free, acquiring hands out that slot and the pool becomes full. |
| Bits.MaskIsMod | include/collection2/buffer.hpp:157 | For a power-of-two capacity, AND with `capacity - 1` is reduction modulo the capacity. |
| Bits.BitAndPow2 | include/collection2/buffer.hpp:135 | ANDing a request with `1 << k` is non-zero exactly when bit `k` of the request is set. |
| Bits.FloorPow2Unique | include/collection2/buffer.hpp:129-139 | A power of two `p` with `p <= n < 2p` is the rounding of `n`. |
| Bits.RoundCapacity | include/collection2/buffer.hpp:122-140 | The capacity search (16-bit candidates from bit 16 down) yields 0 for 0, and otherwise the power of two `p` with `p <= size < 2p`. It equals the reference rounding. |
| Ring.AdvanceWraps | include/collection2/buffer.hpp:175 | The masked index step is the modular step. |
| Ring.Write | include/collection2/buffer.hpp:154-158 | Writing at the tail keeps the ring invariant and appends the value to the stored sequence. |
| Ring.Read | include/collection2/buffer.hpp:171-176 | Reading at the head returns the oldest stored value and drops it from the stored sequence, keeping the invariant. |
| Ring.QueriesAgree | include/collection2/buffer.hpp:89-118 | `amount`, `hasSpace` and `isEmpty` agree with the stored sequence and the capacity. |
| Ring.New | include/collection2/buffer.hpp:121-140 | A new buffer or queue is empty. Its capacity is 0 for an empty array, and otherwise the largest power of two not above the array length. The queue constructors (include/collection2/queue.hpp:100-119, include/queue.hpp:107-126) are the same code; the legacy one's `auto` candidate holds the same values. |
| Buffer.Append | include/collection2/buffer.hpp:142-161 | Overflow exactly at capacity 0, with nothing changed. Otherwise the value becomes the newest element, and the oldest is dropped first when the buffer was full. |
| Buffer.Pop | include/collection2/buffer.hpp:163-179 | Empty exactly when nothing is stored, with nothing changed. Otherwise it hands back the oldest element and removes it. |
| Buffer.AppendAllKeepsLatest | include/collection2/buffer.hpp:142-161 | After any run of appends, the buffer holds the most recent `capacity` values, oldest first. |
| Buffer.PopAllSplits | include/collection2/buffer.hpp:163-179 | Popping `n` values yields exactly `n` of them, and those followed by what is left are what the buffer held: nothing is lost, duplicated or reordered. |
| Buffer.PopAllTakesOldest | include/collection2/buffer.hpp:163-179 | Popping `n` times hands back the `n` oldest values in order and leaves the rest. |
| Buffer.FifoRoundTrip | tests/test_buffer.cpp:40-64 | Up to `capacity` appends to an empty buffer, then as many pops, return the values in order. A further pop reports Empty. |
| Buffer.OverwriteDropsOldest | include/collection2/buffer.hpp:149-158 | Appending to a full buffer succeeds, drops exactly the oldest value and leaves the buffer full. |
| Queue.Enqueue | include/collection2/queue.hpp:121-135 | Overflow exactly when the queue is full, with nothing changed. Otherwise the value becomes the newest element. |
| Queue.Dequeue | include/collection2/queue.hpp:137-151 | Empty exactly when nothing is stored, with nothing changed. Otherwise it hands back the oldest element and removes it. |
| Queue.EnqueueAllKeepsEarliest | include/collection2/queue.hpp:121-135 | A run of enqueues stores the earliest values that fit, in order, and refuses the rest. |
| Queue.DequeueAllSplits | include/collection2/queue.hpp:137-151 | Dequeuing `n` values yields exactly `n` of them, and those followed by what is left are what the queue held. |
| Queue.DequeueAllTakesOldest | include/collection2/queue.hpp:137-151 | Dequeuing `n` times hands back the `n` oldest values in order and leaves the rest. |
| Queue.FifoRoundTrip | tests/test_queue.cpp:25-49 | An empty queue filled to capacity refuses one more value. Draining it then returns the accepted values in order, and the next dequeue reports Empty. |
| LegacyQueue.Enqueue | include/queue.hpp:128-142 | Overflow exactly when full, with nothing changed. Otherwise the value is appended. |
| LegacyQueue.Dequeue | include/queue.hpp:144-158 | Empty exactly when nothing is stored. Otherwise it hands back and removes the oldest element. |
| LegacyQueue.SameAsQueue | include/queue.hpp:128-158 | The legacy `enqueue` and `dequeue` coincide with the current queue's, with the result codes renamed. |
| Stack.New | include/collection2/stack.hpp:110-111 | A new stack is empty and its capacity is the whole array, without rounding. |
| Stack.QueriesAgree | include/collection2/stack.hpp:78-107 | `amount`, `hasSpace` and `isEmpty` agree with the stored sequence and the capacity. |
| Stack.Push | include/collection2/stack.hpp:113-125 | Overflow exactly when full, with nothing changed. Otherwise the value goes on top. |
| Stack.Pop | include/collection2/stack.hpp:127-138 | Empty exactly when nothing is stored. Otherwise it hands back the top value and removes it. |
| Stack.PushPopRoundTrip | include/collection2/stack.hpp:113-138 | A push followed by a pop returns the pushed value and restores the stack. |
| Stack.PushAllStacks | include/collection2/stack.hpp:113-125 | Pushing values that fit stacks them on top, in order. |
| Stack.PopAllUnstacks | include/collection2/stack.hpp:127-138 | Popping as many values as were stacked last returns them in reverse and leaves what was below. |
| Stack.LifoRoundTrip | tests/test_stack.cpp:25-49 | Pushes that fit, then as many pops, return the values in reverse and leave the stack as it was. |
| List.New | include/collection2/list.hpp:137 | The constructor leaves the caller's array untouched and the list empty. |
| List.Walk | include/collection2/list.hpp:322-327 | The bounded walk stays in the pool, takes at most the requested steps, and stops short only at a node whose `next` is null. |
| List.Append | include/collection2/list.hpp:155-177 | Overflow exactly when every slot is in use, with nothing changed. Otherwise the lowest free slot, holding the value, becomes the tail (and the head of an empty list). Only it and the old tail change. |
| List.Insert | include/collection2/list.hpp:179-224 | Overflow exactly when every slot is in use, with nothing changed. Otherwise the new slot holds the value, and it becomes the head at index 0 or in an empty list. |
| List.Get | include/collection2/list.hpp:315-335 | An empty list (null head) gives null for every index. Which element a non-empty list returns is stated by `ListChain.GetReadsPosition` and `ListSequence.GetActsAsSequence`. |
| List.Pop | include/collection2/list.hpp:226-253 | Empty exactly for an empty list. Otherwise it hands back the tail's element, moves the tail to the old tail's `previous`, and frees exactly the old tail's slot. |
| List.Remove | include/collection2/list.hpp:255-313 | Empty exactly for an empty list. Otherwise it hands back the element of the head (index 0) or of the node the walk reaches, and frees exactly that slot. |
| ListChain.WalkFollowsChain | include/collection2/list.hpp:321-327 | On a chain linked by `next`, the walk from position `j` ends at position `min(j + steps, last)` after that many steps. |
| ListChain.GetReadsPosition | include/collection2/list.hpp:315-335 | On a list linked forwards, `get(k)` is the `k`-th element of the chain, or null past its end. |
| ListChain.FreeSlotOffChain | include/collection2/list.hpp:140-153 | The slot an acquire hands out is never on the list's chain. |
| ListChain.FullExactlyAtCapacity | include/collection2/list.hpp:158-161 | On a well-formed list the pool is full exactly when the list holds one element per slot. |
| ListGrow.AppendExtendsChain | include/collection2/list.hpp:164-176 | `append` extends the doubly linked chain by the new slot and the stored sequence by the value. |
| ListGrow.InsertIntoEmpty | include/collection2/list.hpp:188-193 | `insert` into an empty list gives a one-node list holding the value. |
| ListGrow.InsertSplicesChain | include/collection2/list.hpp:202-223 | `insert(k)` with `k >= 1` splices the new slot in at position `min(k, length)`. The chain stays linked both ways, and the value lands at that position. |
| ListGrow.InsertAtHeadLeavesBackLink | include/collection2/list.hpp:195-200 | `insert(0)` on a non-empty list stores the value first along `next`, but leaves the old head's `previous` null, so the backward links are broken. |
| ListShrink.PopLeavesStaleNext | include/collection2/list.hpp:240-250 | `pop` hands back the last element and keeps the remaining chain well formed except one link: the new tail's `next` still names the freed slot. |
| ListShrink.RemoveHeadLeavesStalePrevious | include/collection2/list.hpp:261-282 | `remove(0)` hands back the first element and the rest stays linked forwards, but the new head's `previous` still names the freed slot. |
| ListShrink.RemoveTargetOnChain | include/collection2/list.hpp:284-290 | On a list of two or more nodes, the walk of `remove(k)` with `k >= 1` reaches position `min(k, length - 1)`, whose `previous` exists. |
| ListShrink.RemoveCutsChain | include/collection2/list.hpp:284-312 | On a list of two or more nodes, `remove(k)` with `k >= 1` hands back the element at `min(k, length - 1)` and cuts it out. The chain stays linked both ways. |
| ListShrink.RemoveOnSingleNodeUndefined | include/collection2/list.hpp:297-305 | On a one-node list, `remove(k)` with `k >= 1` reaches a node whose `previous` is null. |
| ListSequence.NewRepresentsEmpty | include/collection2/list.hpp:137 | A list over a pool of free slots stores the empty sequence. |
| ListSequence.GetActsAsSequence | include/collection2/list.hpp:315-335 | `get(k)` reads the `k`-th stored element, or null past the end. |
| ListSequence.AppendActsAsSequence | include/collection2/list.hpp:155-177 | `append` stores the value last. It reports Overflow, changing nothing, exactly when the list already holds one element per slot. |
| ListSequence.InsertAtHeadForward | include/collection2/list.hpp:195-200 | On a list linked forwards, `insert(0)` puts the value first along `next`. |
| ListSequence.InsertAfterHeadForward | include/collection2/list.hpp:202-223 | `insert(k)` with `k >= 1` follows only `next`, so on a list whose `previous` links are stale (after `insert(0)`, as in tests/test_list.cpp:178-179) it still succeeds below capacity and puts the value at position `min(k, length)` along `next`. |
| ListSequence.InsertBehindNewHead | tests/test_list.cpp:177-179 | `insert(0, a)` then `insert(1, b)` both succeed with room for two more and leave `a, b` in front of the old elements along `next`. |
| ListSequence.InsertAllAtHeadReverses | tests/test_list.cpp:108-125 | Inserting values one by one at index 0 stores them in reverse order in front of the existing ones. |
| ListSequence.GetForward | tests/test_list.cpp:119-124 | On a list linked forwards, `get(k)` reads the `k`-th element. |
| RepairedList.Insert | include/collection2/list.hpp:195-200 | The corrected `insert` differs from the original only at index 0 on a non-empty list. |
| RepairedList.Pop | include/collection2/list.hpp:240-250 | The corrected `pop` reports and hands back what the original does. |
| RepairedList.Remove | include/collection2/list.hpp:255-313 | The corrected `remove` equals the original wherever the original is defined for `k >= 1`, and reports Empty exactly on an empty list. |
| RepairedList.InsertLinks | include/collection2/list.hpp:179-224 | The corrected `insert` keeps the chain linked both ways, with the value spliced in at `min(k, length)`. |
| RepairedList.PopLinks | include/collection2/list.hpp:226-253 | The corrected `pop` hands back the last element and leaves the rest linked both ways. |
| RepairedList.RemoveLinks | include/collection2/list.hpp:255-313 | The corrected `remove(k)` hands back the element at `min(k, length - 1)` and leaves the rest linked both ways. |
| RepairedList.InsertActsAsSequence | include/collection2/list.hpp:179-224 | `insert(k, x)` is sequence insertion at `min(k, length)`, or Overflow with nothing changed exactly when full. |
| RepairedList.PopActsAsSequence | include/collection2/list.hpp:226-253 | `pop` removes and returns the last element, or reports Empty with nothing changed exactly when empty. |
| RepairedList.RemoveActsAsSequence | include/collection2/list.hpp:255-313 | `remove(k)` removes and returns the element at `min(k, length - 1)`, or reports Empty exactly when empty. |
| ListDefects.PopKeepsPoppedNodeReachable | include/collection2/list.hpp:240-250 | After append 1, append 2 and pop, `get(1)` returns the popped 2. The repaired `pop` makes it null. |
| ListDefects.InsertAtHeadLosesNewNode | include/collection2/list.hpp:195-200 | After append 1, insert(0, 0) and pop, the list is empty while the slot holding 0 stays in use. With the repair, 0 stays in the list. |
| ListDefects.RemoveHeadRevivesRemovedNode | include/collection2/list.hpp:261-282 | After append 1, append 2, remove(0), pop and pop, the second pop hands back the removed 1. With the repair, it reports Empty. |
| ListDefects.RemovePastOnlyNodeDereferencesNull | include/collection2/list.hpp:297-305 | append 1 then remove(1) reaches a null `previous`. The repaired `remove` empties the list. |
| Tree.Initialize | include/collection2/tree.hpp:166-170 | Pool initialisation marks every slot free and changes nothing else. |
| Tree.IsLeaf | include/collection2/tree.hpp:40-42 | A node is a leaf when both child links are null; `Tree.LeafReachesOnlyItself` states what that means for the subtree. |
| Tree.LeafReachesOnlyItself | include/collection2/tree.hpp:40-42 | On a stamped pool, a node is a leaf exactly when the only slot reachable from it is itself. |
| Tree.InitializeStamps | include/collection2/tree.hpp:159-186 | A declared pool (all links null) is well stamped after construction, and the first node retained is slot 0. |
| Tree.RetainWith | include/collection2/tree.hpp:188-199 | `retainNode(element)` takes the lowest free slot as a leaf holding the element. Every other slot is unchanged. It is null exactly when the pool is full. |
| Tree.LinkNode | include/collection2/tree.hpp:233-253 | A null node gives Empty and an occupied side gives Overflow, both with nothing changed. Otherwise only that side of the parent is set. |
| Tree.AppendChild | include/collection2/tree.hpp:201-231 | A null parent gives Empty with nothing changed. A full pool gives Overflow and a null out-pointer. Otherwise the lowest free slot holds the element, is in use, and is reported through the out-pointer. |
| Tree.AppendChildLinksFreshLeaf | include/collection2/tree.hpp:221-230 | Under a parent in use, the call succeeds exactly when a slot is free and the side is empty. On success a fresh leaf holding the element hangs on that side and nothing else changes. |
| Tree.AppendChildLeaksOnOccupiedSide | include/collection2/tree.hpp:212-230 | On an occupied side the call reports Overflow, yet the slot it acquired stays in use, holding the element, and is linked from nowhere. |
| Tree.AppendChildChecked | include/collection2/tree.hpp:120 | The documented behaviour: on Overflow the pool is unchanged. It succeeds exactly when a slot is free and the side is empty, and then agrees with the original. |
| Tree.RemoveChild | include/collection2/tree.hpp:255-272 | A leaf target is freed and nothing else changes. Otherwise the target ends with no children and keeps its in-use flag. Slots outside the target's subtree are unchanged, and the pool only loses links and in-use flags. |
| Tree.RemoveSide | include/collection2/tree.hpp:264-271 | Removing one side clears that link of the target. It changes nothing outside the subtree on that side. |
| Tree.RemoveChildClears | include/collection2/tree.hpp:255-272 | Every node reachable from the target ends with no children, and every node that was a leaf is freed. |
| Tree.DescendantsShrink | include/collection2/tree.hpp:266-270 | Clearing links and freeing slots never makes more nodes reachable. |
| Tree.LinkNodeKeepsStamped | include/collection2/tree.hpp:233-253 | A call that reports Empty or Overflow keeps the pool stamped. A successful link keeps the same stamps exactly when the linked node was created after the parent. |
| Tree.LinkNodeCanCloseCycle | include/collection2/tree.hpp:233-253 | `linkNode` of a node under itself succeeds, and leaves the node its own child in a pool no stamping fits, so the original `removeChild` on it would not terminate. |
| Tree.RetainKeepsStamped | include/collection2/tree.hpp:173-186 | Retaining a node keeps the pool stamped, with the new node newest. |
| Tree.AppendChildKeepsStamped | include/collection2/tree.hpp:201-231 | Appending under a parent in use keeps the pool stamped, so `removeChild` stays well defined. |
| Tree.AppendsBothSides | tests/test_tree.cpp:11-29 | Children appended on the left and on the right of a root land on those sides, holding their values. |
| Tree.DuplicateAppendIsRefused | tests/test_tree.cpp:31-46 | A second append on an occupied side is refused, the first child is kept, and the other side still takes a child. The refused call leaves slot 2 in use and unreachable; the checked variant leaves the pool unchanged. |
| Tree.RemoveChildOfInternalNode | tests/test_tree.cpp:48-81 | On the tree 0 -> (123, 456 -> (999, 789)), `removeChild` on the 456 node leaves the root's left subtree untouched. The 456 node stays in use with no children, and both of its leaves are freed. |

## Left out

- Integer widths: list indexes (`list_size_t`) are unbounded naturals, so an index of 65536 or more does not wrap. The ring and stack constructors take sizes below 65536, as their 16-bit size types do.
- Null out-pointers: the element handed back by `pop`, `dequeue` and `remove` is returned as a value. A null destination, which `Queue::dequeue` and `Stack::pop` dereference, is not modelled.
- Pointer identity, aliasing of out-pointers and `Element` copy semantics are not modelled. Elements are values of a type parameter.
- `List::amount` is declared but never updated (include/collection2/list.hpp:71), so it is not modelled.
- The test-only accessors `List::head`, `List::tail` and `List::capacity`, and `Tree::capacity` (include/collection2/tree.hpp:154-156), are left out. They return a field unchanged.
- Interrupt-context use of the ring buffer is left out: the containers are single-threaded.
- List.Remove: requires that `remove(k)` with `k >= 1` reach a node with a `previous`. Otherwise the original dereferences null and has no defined result (see Findings).
- Tree.RemoveChild: needs ghost creation stamps (`Stamped`), which rule out a cycle of child links anywhere in the pool, not only below the target. Every pool built by retaining nodes and appending under nodes in use has them. Two calls can close a cycle, and then the original `removeChild` recurses without end, which this model does not cover. One is `linkNode` of a node under itself or under one of its descendants (`Tree.LinkNodeCanCloseCycle` shows the first). The other is appending under a free slot, which can make a node its own child. `linkNode` of an older node that is not an ancestor makes no cycle but breaks the current stamps (`Tree.LinkNodeKeepsStamped`), and the model does not build the new stamping such a pool would need. The target is a slot index, so `removeChild(nullptr)` is not modelled: the original dereferences the null target at include/collection2/tree.hpp:258 and crashes.
- Tree.RemoveChildClears: does not state that internal descendants of the target stay in use. That holds only when no slot hangs under two parents, which the pool alone does not rule out. `Tree.RemoveChildOfInternalNode` shows it on the tree of the removal unit test.
- Tree.AppendChild: parent pointers outside the pool are not modelled. The parent is a slot index or null.
- No single lemma chains many appends on the list. `ListSequence.AppendActsAsSequence` and `ListSequence.GetActsAsSequence` state one step each, and the element-by-element tests follow from them step by step.

## Findings

| source | as written | input that shows it | evidently intended | confidence | as-written member | corrected member |
|---|---|---|---|---|---|---|
| include/collection2/list.hpp:195-200 | `insert(0)` links the new node's `next` to the old head but leaves the old head's `previous` null | append 1, insert(0, 0), pop: the list is empty and the slot holding 0 stays in use | the old head's `previous` is set to the new node (`RepairedList.InsertActsAsSequence`) | not executed | ListDefects.InsertAtHeadLosesNewNode | RepairedList.Insert |
| include/collection2/list.hpp:240-250 | `pop` moves `tail` back but leaves the new tail's `next` naming the freed node | append 1, append 2, pop, get(1): returns 2 | the new tail's `next` is cleared (`RepairedList.PopActsAsSequence`) | not executed | ListDefects.PopKeepsPoppedNodeReachable | RepairedList.Pop |
| include/collection2/list.hpp:261-282 | `remove(0)` moves `head` forward but leaves the new head's `previous` naming the freed node | append 1, append 2, remove(0), pop, pop: the second pop hands back 1 again | the new head's `previous` is cleared (`RepairedList.RemoveActsAsSequence`) | not executed | ListDefects.RemoveHeadRevivesRemovedNode | RepairedList.Remove |
| include/collection2/list.hpp:297-305 | `remove(k)` with `k >= 1` on a one-node list dereferences the head's null `previous` | append 1, remove(1) | the only node is removed and the list becomes empty (`RepairedList.RemoveActsAsSequence`) | not executed | ListDefects.RemovePastOnlyNodeDereferencesNull | RepairedList.Remove |
| include/collection2/tree.hpp:212-230 | `appendChild` acquires a node before checking the side, so an occupied side returns Overflow with the acquired node left in use and linked from nowhere | root with a left child, appendChild(root, 456, Left) | the call does nothing when the side is taken, as its documentation at include/collection2/tree.hpp:120 says | not executed | Tree.AppendChildLeaksOnOccupiedSide | Tree.AppendChildChecked |
