/** The shape a list is meant to keep: its slots, read from head to tail,
    form a chain whose `next` and `previous` links agree with that order.
    This module defines that chain and the facts every operation shares:
    reading along `next`, the free slot, and when the pool is full. */
module ListChain {
  import opened Common
  import opened NodePool
  import opened List

  function First(xs: seq<nat>): Option<nat>
  {
    if xs == [] then None else Some(xs[0])
  }

  function Last(xs: seq<nat>): Option<nat>
  {
    if xs == [] then None else Some(xs[|xs| - 1])
  }

  /** The slot after position `k` of the chain, or null at its end. */
  function NextIn(xs: seq<nat>, k: nat): Option<nat>
    requires k < |xs|
  {
    if k + 1 < |xs| then Some(xs[k + 1]) else None
  }

  /** The slot before position `k` of the chain, or null at its start. */
  function PrevIn(xs: seq<nat>, k: nat): Option<nat>
    requires k < |xs|
  {
    if k > 0 then Some(xs[k - 1]) else None
  }

  function Min(a: nat, b: nat): nat
  {
    if a < b then a else b
  }

  predicate Distinct(xs: seq<nat>)
  {
    forall a, b :: 0 <= a < b < |xs| ==> xs[a] != xs[b]
  }

  predicate Within<E>(pool: seq<Slot<E>>, xs: seq<nat>)
  {
    forall k :: 0 <= k < |xs| ==> xs[k] < |pool|
  }

  /** The chain names distinct slots in use, and every slot in use is on it:
      the list owns exactly its nodes. */
  predicate Owns<E>(pool: seq<Slot<E>>, xs: seq<nat>)
  {
    && Within(pool, xs)
    && (forall k {:trigger pool[xs[k]]} :: 0 <= k < |xs| ==> pool[xs[k]].enabled)
    && Distinct(xs)
    && (forall j :: 0 <= j < |pool| && pool[j].enabled ==> j in xs)
  }

  /** Every `next` link on the chain names the following slot. */
  predicate NextLinks<E>(pool: seq<Slot<E>>, xs: seq<nat>)
  {
    Within(pool, xs) && forall k {:trigger pool[xs[k]]} :: 0 <= k < |xs| ==> pool[xs[k]].linkA == NextIn(xs, k)
  }

  /** Every `previous` link on the chain names the preceding slot. */
  predicate PrevLinks<E>(pool: seq<Slot<E>>, xs: seq<nat>)
  {
    Within(pool, xs) && forall k {:trigger pool[xs[k]]} :: 0 <= k < |xs| ==> pool[xs[k]].linkB == PrevIn(xs, k)
  }

  /** Read from `head` along `next`, the list is the chain `xs`. */
  predicate Forward<E>(s: ListState<E>, xs: seq<nat>)
  {
    && Valid(s)
    && Owns(s.pool, xs)
    && s.head == First(xs)
    && s.tail == Last(xs)
    && NextLinks(s.pool, xs)
  }

  /** Read along `next` from `head` and along `previous` from `tail`, the
      list is the chain `xs`. */
  predicate Linked<E>(s: ListState<E>, xs: seq<nat>)
  {
    Forward(s, xs) && PrevLinks(s.pool, xs)
  }

  /** The elements stored along the chain, in order. */
  function Elements<E>(pool: seq<Slot<E>>, xs: seq<nat>): (es: seq<E>)
    requires Within(pool, xs)
    ensures |es| == |xs|
  {
    seq(|xs|, k requires 0 <= k < |xs| => pool[xs[k]].element)
  }

  /** The bounded walk along a chain from position `j` stops at position
      `j + steps`, or at the last node when the chain ends first. */
  lemma {:induction false} WalkFollowsChain<E>(pool: seq<Slot<E>>, xs: seq<nat>, j: nat, steps: nat)
    requires LinksInBounds(pool) && NextLinks(pool, xs) && j < |xs|
    ensures Walk(pool, xs[j], steps) == (xs[Min(j + steps, |xs| - 1)], Min(steps, |xs| - 1 - j))
    decreases steps
  {
    if steps > 0 && j + 1 < |xs| {
      assert pool[xs[j]].linkA == Some(xs[j + 1]);
      WalkFollowsChain(pool, xs, j + 1, steps - 1);
    }
  }

  /** `get(k)` returns the `k`-th element of the chain, and null exactly
      when `k` is not below the length. */
  lemma GetReadsPosition<E>(s: ListState<E>, xs: seq<nat>, k: nat)
    requires Forward(s, xs)
    ensures Get(s, k) == if k < |xs| then Some(Elements(s.pool, xs)[k]) else None
  {
    if xs != [] {
      WalkFollowsChain(s.pool, xs, 0, k);
    }
  }

  /** A slot outside the chain can be rewritten without disturbing it. */
  lemma FrameOutside<E>(pool: seq<Slot<E>>, pool': seq<Slot<E>>, xs: seq<nat>)
    requires |pool'| == |pool| && Within(pool, xs)
    requires forall k :: 0 <= k < |xs| ==> pool'[xs[k]] == pool[xs[k]]
    ensures NextLinks(pool, xs) ==> NextLinks(pool', xs)
    ensures PrevLinks(pool, xs) ==> PrevLinks(pool', xs)
    ensures Elements(pool', xs) == Elements(pool, xs)
  {
  }

  /** The slot acquire hands out is not on the chain. */
  lemma FreeSlotOffChain<E>(s: ListState<E>, xs: seq<nat>)
    requires Forward(s, xs) && !Full(s.pool)
    ensures NextFree(s.pool).value < |s.pool|
    ensures forall k :: 0 <= k < |xs| ==> xs[k] != NextFree(s.pool).value
  {
  }

  /** The slots named by the chain. */
  function SlotSet(xs: seq<nat>): (r: set<nat>)
    ensures forall j :: j in r <==> j in xs
  {
    if xs == [] then {} else SlotSet(xs[..|xs| - 1]) + {xs[|xs| - 1]}
  }

  /** The indices below `n`. */
  function Below(n: nat): (r: set<nat>)
    ensures forall j: nat :: j in r <==> j < n
  {
    if n == 0 then {} else Below(n - 1) + {n - 1}
  }

  lemma {:induction false} SlotSetSize(xs: seq<nat>)
    requires Distinct(xs)
    ensures |SlotSet(xs)| == |xs|
  {
    if xs != [] {
      var init := xs[..|xs| - 1];
      assert Distinct(init);
      SlotSetSize(init);
      assert xs[|xs| - 1] !in init;
    }
  }

  lemma {:induction false} BelowSize(n: nat)
    ensures |Below(n)| == n
  {
    if n > 0 {
      BelowSize(n - 1);
    }
  }

  lemma SubsetSize(a: set<nat>, b: set<nat>)
    requires a <= b
    ensures |a| <= |b|
    ensures |a| == |b| ==> a == b
  {
    assert b == a + (b - a);
    assert |b| == |a| + |b - a|;
    if |a| == |b| {
      assert |b - a| == 0;
    }
  }

  lemma ChainWithinPool<E>(pool: seq<Slot<E>>, xs: seq<nat>)
    requires Within(pool, xs)
    ensures SlotSet(xs) <= Below(|pool|)
  {
    forall j | j in SlotSet(xs) ensures j in Below(|pool|)
    {
      var k :| 0 <= k < |xs| && xs[k] == j;
    }
  }

  lemma FullPoolOnChain<E>(pool: seq<Slot<E>>, xs: seq<nat>)
    requires Owns(pool, xs) && Full(pool)
    ensures Below(|pool|) <= SlotSet(xs)
  {
    forall j | j in Below(|pool|) ensures j in SlotSet(xs)
    {
      assert pool[j].enabled;
    }
  }

  lemma ChainFillsPool<E>(pool: seq<Slot<E>>, xs: seq<nat>)
    requires Owns(pool, xs) && SlotSet(xs) == Below(|pool|)
    ensures Full(pool)
  {
    forall j | 0 <= j < |pool| ensures pool[j].enabled
    {
      assert j in SlotSet(xs);
      var k :| 0 <= k < |xs| && xs[k] == j;
      assert pool[xs[k]].enabled;
    }
  }

  /** A list that owns its nodes has filled the pool exactly when it holds
      as many nodes as the pool has slots, so `append` and `insert` report
      Overflow exactly at that length. */
  lemma FullExactlyAtCapacity<E>(pool: seq<Slot<E>>, xs: seq<nat>)
    requires Owns(pool, xs)
    ensures |xs| <= |pool|
    ensures Full(pool) <==> |xs| == |pool|
  {
    SlotSetSize(xs);
    BelowSize(|pool|);
    ChainWithinPool(pool, xs);
    SubsetSize(SlotSet(xs), Below(|pool|));
    if Full(pool) {
      FullPoolOnChain(pool, xs);
      SubsetSize(Below(|pool|), SlotSet(xs));
    }
    if |xs| == |pool| {
      ChainFillsPool(pool, xs);
    }
  }
}
