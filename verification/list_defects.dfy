/** Concrete runs on a two-slot pool that show each link defect of the
    as-written list, next to the repaired list on the same calls. */
module ListDefects {
  import opened Common
  import opened NodePool
  import List
  import RepairedList

  /** A free slot holding 0. */
  const Free: Slot<int> := Slot(false, None, None, 0)

  /** A new list over two free slots. */
  const Start: List.ListState<int> := List.ListState([Free, Free], None, None)

  /** The list after `append(1)`: slot 0 holds 1. */
  const One: List.ListState<int> := List.ListState([Slot(true, None, None, 1), Free], Some(0), Some(0))

  /** The list after `append(1)` and `append(2)`: slot 0 holds 1, slot 1
      holds 2, linked both ways. */
  const OneTwo: List.ListState<int> :=
    List.ListState([Slot(true, Some(1), None, 1), Slot(true, None, Some(0), 2)], Some(0), Some(1))

  /** `append(1)` on a new list over two free slots gives `One`. */
  lemma AppendOne()
    ensures Start == List.New([Free, Free])
    ensures List.Append(Start, 1) == List.Added(Success, One)
  {
    assert FirstFree(Start.pool, 0) == Some(0);
  }

  /** `append(2)` after it gives `OneTwo`. */
  lemma AppendTwo()
    ensures List.Append(One, 2) == List.Added(Success, OneTwo)
  {
    assert FirstFree(One.pool, 1) == Some(1);
    assert FirstFree(One.pool, 0) == Some(1);
  }

  /** append 1, append 2, pop, then get(1): the list holds one element,
      yet the as-written `get(1)` follows the stale `next` to the popped
      slot and returns 2; the repaired `pop` makes it return null. */
  lemma PopKeepsPoppedNodeReachable()
    ensures List.Get(List.Pop(OneTwo).list, 1) == Some(2)
    ensures List.Get(RepairedList.Pop(OneTwo).list, 1) == None
  {
  }

  /** append 1, insert(0, 0), pop: the as-written `insert(0)` leaves the
      old head's `previous` null, so popping 1 empties the list and strands
      the slot holding 0, still in use; with the repaired `insert` and
      `pop`, 0 stays in the list. */
  lemma InsertAtHeadLosesNewNode()
    ensures var p := List.Pop(List.Insert(One, 0, 0).list);
      && p.result == Success && p.value == Some(1)
      && p.list.head.None? && p.list.pool[1].enabled && p.list.pool[1].element == 0
    ensures var p := RepairedList.Pop(RepairedList.Insert(One, 0, 0).list);
      && p.result == Success && p.value == Some(1)
      && List.Get(p.list, 0) == Some(0)
  {
  }

  /** append 1, append 2, remove(0), pop, pop: the as-written `remove(0)`
      leaves the new head's `previous` naming the removed slot, so the first
      pop moves the tail back onto it and the second pop hands back the
      already removed 1; with the repaired `remove`, the second pop reports
      Empty. */
  lemma RemoveHeadRevivesRemovedNode()
    ensures var p1 := List.Pop(List.Remove(OneTwo, 0).list);
      var p2 := List.Pop(p1.list);
      && p1.value == Some(2)
      && p2.result == Success && p2.value == Some(1)
    ensures var p1 := RepairedList.Pop(RepairedList.Remove(OneTwo, 0).list);
      var p2 := RepairedList.Pop(p1.list);
      && p1.value == Some(2)
      && p2.result == Empty
  {
  }

  /** append 1, remove(1): the walk stops at the only node, whose
      `previous` is null, and the as-written code dereferences it; the
      repaired `remove` takes the node out and leaves the list empty. */
  lemma RemovePastOnlyNodeDereferencesNull()
    ensures !List.RemoveDefined(One, 1)
    ensures var r := RepairedList.Remove(One, 1);
      r.result == Success && r.value == Some(1) && r.list.head.None? && r.list.tail.None?
  {
  }
}
