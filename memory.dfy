// The slab free lists of the engine (one each for sites, edges and
// half-edges). Nodes are indices into an arena; `arena` is the number of
// slots the arena holds so far, and `head` is the free chain, head first.
module Memory {

  /** A free list: the chain of free slots and the size of the arena behind it. */
  datatype FreeList = FreeList(head: seq<nat>, arena: nat)

  /** The chain is a proper list of distinct slots of the arena. */
  ghost predicate WellFormed(fl: FreeList)
  {
    && (forall i :: 0 <= i < |fl.head| ==> fl.head[i] < fl.arena)
    && (forall i, j :: 0 <= i < j < |fl.head| ==> fl.head[i] != fl.head[j])
  }

  /** freeinit: an empty chain over an arena of `base` slots. */
  function FreeInit(base: nat): (fl: FreeList)
    ensures fl.head == [] && fl.arena == base && WellFormed(fl)
  {
    FreeList([], base)
  }

  /** makefree: push `t` on the head of the chain. */
  function MakeFree(fl: FreeList, t: nat): (r: FreeList)
    ensures r.arena == fl.arena && |r.head| == |fl.head| + 1
    ensures r.head[0] == t && r.head[1..] == fl.head
  {
    FreeList([t] + fl.head, fl.arena)
  }

  /** Pushing keeps the chain well formed exactly when `t` is an arena slot not already free. */
  lemma MakeFreeWellFormed(fl: FreeList, t: nat)
    requires WellFormed(fl)
    ensures WellFormed(MakeFree(fl, t)) <==> t < fl.arena && t !in fl.head
  {
    var r := MakeFree(fl, t);
    if t in fl.head {
      var j :| 0 <= j < |fl.head| && fl.head[j] == t;
      assert r.head[0] == r.head[j + 1];
    }
  }

  /** The slots [lo, lo + n), highest first: the order a refill leaves them in. */
  function Descending(lo: nat, n: nat): (s: seq<nat>)
    ensures |s| == n
    ensures forall i :: 0 <= i < n ==> s[i] == lo + n - 1 - i
    ensures forall x :: x in s <==> lo <= x < lo + n
  {
    if n == 0 then [] else [lo + n - 1] + Descending(lo, n - 1)
  }

  /**
   * The state getfree leaves and the slot it hands out: the head of the chain,
   * after refilling an empty chain with `slab` fresh slots pushed one by one.
   */
  function Taken(fl: FreeList, slab: nat): (FreeList, nat)
    requires slab >= 1
  {
    if fl.head != [] then (FreeList(fl.head[1..], fl.arena), fl.head[0])
    else (FreeList(Descending(fl.arena, slab - 1), fl.arena + slab), fl.arena + slab - 1)
  }

  /** getfree: refill an empty chain with a fresh slab, then pop the head. */
  method GetFree(fl: FreeList, slab: nat) returns (fl': FreeList, t: nat)
    requires slab >= 1
    ensures (fl', t) == Taken(fl, slab)
    ensures fl.head != [] ==> t == fl.head[0] && fl'.head == fl.head[1..] && fl'.arena == fl.arena
    ensures fl.head == [] ==> fl.arena <= t == fl'.arena - 1 && fl'.arena == fl.arena + slab
    ensures WellFormed(fl) ==> WellFormed(fl') && t < fl'.arena && t !in fl'.head
    ensures fl.head == [] ==> forall s :: s in fl'.head ==> fl.arena <= s < fl'.arena
    ensures fl.arena <= fl'.arena && forall s :: s in fl'.head ==> s in fl.head || fl.arena <= s
    ensures WellFormed(fl) ==>
      forall s :: s in fl'.head <==> s != t && (s in fl.head || fl.arena <= s < fl'.arena)
  {
    var cur := fl;
    if cur.head == [] {
      // one slab of `slab` nodes, then makefree on each in address order
      cur := FreeList([], fl.arena + slab);
      var i := 0;
      while i < slab
        invariant 0 <= i <= slab
        invariant cur == FreeList(Descending(fl.arena, i), fl.arena + slab)
      {
        cur := MakeFree(cur, fl.arena + i);
        i := i + 1;
      }
    }
    t := cur.head[0];
    fl' := FreeList(cur.head[1..], cur.arena);
  }

  /** LIFO: the slot makefree just released is the next one getfree hands out, and nothing else moves. */
  lemma MakeFreeThenGet(fl: FreeList, t: nat, slab: nat)
    requires slab >= 1
    ensures Taken(MakeFree(fl, t), slab) == (fl, t)
  {
    assert MakeFree(fl, t).head[1..] == fl.head;
  }

  /** floor(sqrt(n)), searched upward from a root known not to overshoot. */
  function SqrtFrom(n: nat, r: nat): (s: nat)
    requires r * r <= n
    ensures r <= s && s * s <= n < (s + 1) * (s + 1)
    decreases n - r
  {
    if (r + 1) * (r + 1) > n then r
    else SqrtFrom(n, r + 1)
  }

  /** sqrt_nsites: the slab size and hash scale, (int) sqrt(nsites + 4). */
  function SqrtNSites(nsites: nat): (s: nat)
    ensures s * s <= nsites + 4 < (s + 1) * (s + 1)
    ensures s >= 2
  {
    SqrtFrom(nsites + 4, 2)
  }
}
