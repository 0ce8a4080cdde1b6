/** The node pool shared by the list and the tree: a caller-supplied array of
    slots, each tagged in use or free, from which nodes are acquired by a
    lowest-index-first scan. */
module NodePool {
  import opened Common

  /** One slot of the pool. Links are indices into the same pool. The list
      uses `linkA` as `next` and `linkB` as `previous`; the tree uses `linkA`
      as `lhs` and `linkB` as `rhs`. */
  datatype Slot<E> = Slot(enabled: bool, linkA: Option<nat>, linkB: Option<nat>, element: E)

  /** Every link stored anywhere in the pool names a slot of the pool. */
  predicate LinksInBounds<E>(pool: seq<Slot<E>>)
  {
    forall j :: 0 <= j < |pool| ==> InBounds(pool[j].linkA, |pool|) && InBounds(pool[j].linkB, |pool|)
  }

  /** No slot is free. */
  predicate Full<E>(pool: seq<Slot<E>>)
  {
    forall j :: 0 <= j < |pool| ==> pool[j].enabled
  }

  /** A slot as acquire leaves it: in use, both links cleared, payload kept. */
  function Claimed<E>(slot: Slot<E>): Slot<E>
  {
    slot.(enabled := true, linkA := None, linkB := None)
  }

  /** The scan of the acquire loop, started at index `from`: the first free
      slot at or after `from`. */
  function FirstFree<E>(pool: seq<Slot<E>>, from: nat): (r: Option<nat>)
    requires from <= |pool|
    ensures r.None? <==> forall j :: from <= j < |pool| ==> pool[j].enabled
    ensures r.Some? ==> from <= r.value < |pool| && !pool[r.value].enabled
    ensures r.Some? ==> forall j :: from <= j < r.value ==> pool[j].enabled
    decreases |pool| - from
  {
    if from == |pool| then None
    else if !pool[from].enabled then Some(from)
    else FirstFree(pool, from + 1)
  }

  /** The outcome of an acquire: the slot handed out (None when the pool is
      full) and the pool afterwards. */
  datatype Acquired<E> = Acquired(slot: Option<nat>, pool: seq<Slot<E>>)

  /** Hands out the lowest-index free slot, marked in use with both links
      cleared; its payload is left as it was. */
  function Acquire<E>(pool: seq<Slot<E>>): (r: Acquired<E>)
    ensures r.slot.None? <==> Full(pool)
    ensures r.slot.None? ==> r.pool == pool
    ensures r.slot.Some? ==>
      && r.slot.value < |pool|
      && !pool[r.slot.value].enabled
      && (forall j :: 0 <= j < r.slot.value ==> pool[j].enabled)
    ensures r.slot.Some? ==>
      && |r.pool| == |pool|
      && r.pool[r.slot.value] == Claimed(pool[r.slot.value])
      && (forall j :: 0 <= j < |pool| && j != r.slot.value ==> r.pool[j] == pool[j])
    ensures LinksInBounds(pool) ==> LinksInBounds(r.pool)
  {
    var found := FirstFree(pool, 0);
    if found.None? then Acquired(None, pool)
    else
      var i := found.value;
      Acquired(found, pool[i := Claimed(pool[i])])
  }

  /** Index-order reuse: when exactly one slot is free, acquiring hands out
      that slot. */
  lemma AcquireReusesTheFreedSlot<E>(pool: seq<Slot<E>>, i: nat)
    requires i < |pool| && !pool[i].enabled
    requires forall j :: 0 <= j < |pool| && j != i ==> pool[j].enabled
    ensures Acquire(pool).slot == Some(i)
    ensures Full(Acquire(pool).pool)
  {
  }
}
