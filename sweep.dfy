// The per-run state of the sweep-line engine: the site, edge and half-edge
// arenas with their free lists, the beach line (a doubly linked list between
// two sentinels, indexed by the ELhash table) and the bucketed circle-event
// queue (PQhash). Nodes are arena indices; NULL is -1 and the tombstone that
// ELdelete leaves in a half-edge's edge field is DELETED (-2).
module Sweep {
  import opened Geometry
  import opened Memory
  import Reader

  const NULL: int := -1
  const DELETED: int := -2
  /** Orientation of a half-edge and index into an edge's reg/ep pairs. */
  const LE: int := 0
  const RE: int := 1

  /** The two-slot arrays reg[2] and ep[2] of an edge. */
  datatype Sides = Sides(le: int, re: int) {
    function Get(lr: int): int { if lr == LE then le else re }
    function Set(lr: int, v: int): Sides { if lr == LE then this.(le := v) else this.(re := v) }
  }

  /** `s` extended to length `n` with copies of `d`: the slots a slab adds to an arena. */
  function Pad<T>(s: seq<T>, n: nat, d: T): (r: seq<T>)
    requires |s| <= n
    ensures |r| == n && r[..|s|] == s
    ensures forall i :: |s| <= i < n ==> r[i] == d
  {
    s + seq(n - |s|, _ => d)
  }

  /** Position of `x` in `s`. */
  ghost function IndexIn(s: seq<int>, x: int): (k: nat)
    requires x in s
    ensures k < |s| && s[k] == x
  {
    if s[0] == x then 0 else 1 + IndexIn(s[1..], x)
  }

  /** In a sequence without repeats, IndexIn finds the position an element was taken from. */
  lemma {:induction false} DistinctIndex(s: seq<int>, k: int)
    requires forall i, j :: 0 <= i < j < |s| ==> s[i] != s[j]
    requires 0 <= k < |s|
    ensures IndexIn(s, s[k]) == k
  {
    if k > 0 {
      assert s[0] != s[k];
      assert s[1..][k - 1] == s[k];
      DistinctIndex(s[1..], k - 1);
    }
  }

  /** The queue order: (ystar, x) lexicographically, strictly. */
  predicate KeyBefore(y1: real, x1: real, y2: real, x2: real)
  {
    y1 < y2 || (y1 == y2 && x1 < x2)
  }

  /**
   * PQbucket without its side effect: the bucket of a delayed key `ystar`,
   * scaled over [ymin, ymax) (geominit sets deltay to ymax - ymin) and clamped.
   */
  function PQBucketIndex(ystar: real, ymin: real, ymax: real, size: nat): (b: int)
    requires size >= 1
    ensures 0 <= b < size
    ensures ystar < ymin ==> b == 0
    ensures ymin <= ystar && ymax <= ystar ==> b == size - 1
  {
    var raw := if ystar < ymin then 0
               else if ystar >= ymax then size - 1
               else Trunc((ystar - ymin) / (ymax - ymin) * size as real);
    if raw < 0 then 0 else if raw >= size then size - 1 else raw
  }

  /** Division by a positive real keeps the order. */
  lemma DivMonotone(a: real, b: real, d: real)
    requires a <= b && 0.0 < d
    ensures a / d <= b / d
  {
    assert (b - a) / d >= 0.0;
    assert (b - a) / d == b / d - a / d;
  }

  /** Multiplication by a non-negative real keeps the order. */
  lemma MulMonotone(u: real, v: real, s: real)
    requires u <= v && 0.0 <= s
    ensures u * s <= v * s
  {
    assert (v - u) * s >= 0.0;
    assert v * s - u * s == (v - u) * s;
  }

  /** Inside [ymin, ymax) the scaled, truncated position grows with y. */
  lemma ScaledMonotone(y1: real, y2: real, ymin: real, ymax: real, size: nat)
    requires ymin <= y1 <= y2 < ymax
    ensures 0 <= Trunc((y1 - ymin) / (ymax - ymin) * size as real)
    ensures Trunc((y1 - ymin) / (ymax - ymin) * size as real) <= Trunc((y2 - ymin) / (ymax - ymin) * size as real)
  {
    var d, s := ymax - ymin, size as real;
    var q1, q2 := (y1 - ymin) / d, (y2 - ymin) / d;
    DivMonotone(0.0, y1 - ymin, d);
    DivMonotone(y1 - ymin, y2 - ymin, d);
    assert 0.0 <= q1 <= q2;
    MulMonotone(0.0, q1, s);
    MulMonotone(q1, q2, s);
    FloorMonotone(q1 * s, q2 * s);
  }

  /** Truncation of non-negative reals keeps the order. */
  lemma FloorMonotone(r1: real, r2: real)
    requires 0.0 <= r1 <= r2
    ensures 0 <= Trunc(r1) <= Trunc(r2)
  {
    assert Trunc(r1) == r1.Floor && Trunc(r2) == r2.Floor;
    assert r1.Floor as real <= r1 && r2 < r2.Floor as real + 1.0;
  }

  /** Buckets respect the key order: a lower delayed y never lands in a higher bucket. */
  lemma PQBucketMonotone(y1: real, y2: real, ymin: real, ymax: real, size: nat)
    requires size >= 1 && y1 <= y2
    ensures PQBucketIndex(y1, ymin, ymax, size) <= PQBucketIndex(y2, ymin, ymax, size)
  {
    if ymin <= y1 && y2 < ymax {
      var r1 := (y1 - ymin) / (ymax - ymin) * size as real;
      var r2 := (y2 - ymin) / (ymax - ymin) * size as real;
      ScaledMonotone(y1, y2, ymin, ymax, size);
      assert PQBucketIndex(y1, ymin, ymax, size) == (if Trunc(r1) >= size then size - 1 else Trunc(r1));
      assert PQBucketIndex(y2, ymin, ymax, size) == (if Trunc(r2) >= size then size - 1 else Trunc(r2));
    }
  }

  /**
   * The hash bucket ELleftbnd starts from: p.x scaled over the x range to
   * `size` buckets, truncated, then clamped into [0, size - 1]. With a zero
   * x range the C conversion is undefined; the model starts from bucket 0.
   */
  function ELBucketIndex(px: real, xmin: real, deltax: real, size: nat): (b: int)
    requires size >= 1
    ensures 0 <= b < size
    ensures deltax != 0.0 ==>
      var raw := Trunc((px - xmin) / deltax * size as real);
      b == (if raw < 0 then 0 else if raw >= size then size - 1 else raw)
  {
    var raw := if deltax == 0.0 then 0 else Trunc((px - xmin) / deltax * size as real);
    if raw < 0 then 0 else if raw >= size then size - 1 else raw
  }

  /** Total number of nodes over all buckets. */
  function TotalSize(bs: seq<seq<int>>): nat
  {
    if bs == [] then 0 else |bs[0]| + TotalSize(bs[1..])
  }

  /** Replacing one bucket changes the total by the change in that bucket's length. */
  lemma {:induction false} TotalSizeUpdate(bs: seq<seq<int>>, b: int, s: seq<int>)
    requires 0 <= b < |bs|
    ensures TotalSize(bs[b := s]) == TotalSize(bs) - |bs[b]| + |s|
  {
    if b > 0 {
      assert bs[b := s][1..] == bs[1..][b - 1 := s];
      TotalSizeUpdate(bs[1..], b - 1, s);
    }
  }

  /** The total is zero exactly when every bucket is empty. */
  lemma {:induction false} TotalSizeZero(bs: seq<seq<int>>)
    ensures TotalSize(bs) == 0 <==> forall b :: 0 <= b < |bs| ==> bs[b] == []
  {
    if bs != [] {
      TotalSizeZero(bs[1..]);
      assert forall b :: 1 <= b < |bs| ==> bs[b] == bs[1..][b - 1];
    }
  }

  /** A reference count table with the count of `v` moved by `d`. */
  function Bumped(rc: seq<int>, v: int, d: int): (r: seq<int>)
    requires 0 <= v < |rc|
    ensures |r| == |rc| && r[v] == rc[v] + d
    ensures forall u :: 0 <= u < |rc| && u != v ==> r[u] == rc[u]
  {
    rc[v := rc[v] + d]
  }

  /** A free list after dropping a reference leaves node `v` with count `cnt`: back on the list at zero. */
  function Released(fl: FreeList, v: nat, cnt: int): (r: FreeList)
    ensures cnt == 0 ==> r.head == [v] + fl.head && r.arena == fl.arena
    ensures cnt != 0 ==> r == fl
  {
    if cnt == 0 then MakeFree(fl, v) else fl
  }

  /** The site arena: parallel arrays over the slots of `sfl`; a free slot holds no references. */
  ghost predicate SiteArena(coord: seq<Point>, sitenbr: seq<int>, refcnt: seq<int>, sfl: FreeList)
  {
    && |sitenbr| == |coord| && |refcnt| == |coord| && sfl.arena == |coord|
    && WellFormed(sfl)
    && (forall i :: 0 <= i < |sfl.head| ==> refcnt[sfl.head[i]] <= 0)
  }

  /** The reference counts of `n` fresh sites. */
  function Zeros(n: nat): (z: seq<int>)
    ensures |z| == n && forall i :: 0 <= i < n ==> z[i] == 0
  {
    seq(n, _ => 0)
  }

  /**
   * The site arena readsites leaves behind for `input`: the sites sorted by
   * the comparator, numbered by a permutation of the input indices, site i at
   * input point sitenbr[i], no site referenced or handed out, and every site
   * inside the box [xmin, xmax] x [ymin, ymax] of `bounds`.
   */
  ghost predicate ReadSites(coord: seq<Point>, sitenbr: seq<int>, refcnt: seq<int>, sfl: FreeList,
                            input: seq<Point>, bounds: Reader.Bounds)
  {
    && SiteArena(coord, sitenbr, refcnt, sfl) && |coord| == |input|
    && sfl.head == [] && (forall i :: 0 <= i < |refcnt| ==> refcnt[i] == 0)
    && Reader.IsPermutation(sitenbr, |input|)
    && (forall i :: 0 <= i < |input| ==> coord[i] == input[sitenbr[i]])
    && SortedBySweep(coord)
    && (forall i :: 0 <= i < |coord| ==>
          bounds.xmin <= coord[i].x <= bounds.xmax && bounds.ymin <= coord[i].y <= bounds.ymax)
  }

  /**
   * readsites and geominit over qsort's order `perm` leave `ReadSites` for a
   * non-empty input (with none, every site array is simply empty).
   */
  lemma InputSites(input: seq<Point>, perm: seq<int>, bounds: Reader.Bounds)
    requires input != [] && Reader.IsPermutation(perm, |input|)
    requires SortedBySweep(Reader.Arrange(input, perm)) && Reader.BoxOf(Reader.Arrange(input, perm), bounds)
    ensures ReadSites(Reader.Arrange(input, perm), perm, Zeros(|input|), FreeInit(|input|), input, bounds)
  {
    Reader.BoxBoundsSorted(Reader.Arrange(input, perm), bounds);
  }

  /** The edge arena: every site reference is NULL or one of `nsite` site slots, and an edge in use has both regions. */
  ghost predicate EdgeArena(reg: seq<Sides>, ep: seq<Sides>, efl: FreeList, nsite: int)
  {
    && |ep| == |reg| && efl.arena == |reg| && WellFormed(efl)
    && (forall e :: 0 <= e < |reg| ==>
          (reg[e].le == NULL || 0 <= reg[e].le < nsite) && (reg[e].re == NULL || 0 <= reg[e].re < nsite)
          && (ep[e].le == NULL || 0 <= ep[e].le < nsite) && (ep[e].re == NULL || 0 <= ep[e].re < nsite))
    && (forall e :: 0 <= e < |reg| && e !in efl.head ==> reg[e].le != NULL && reg[e].re != NULL)
  }

  /**
   * `b` is a doubly linked list through `left`/`right`: distinct slots, each
   * node's right link naming the next and the next's left link naming it.
   */
  ghost predicate Linked(b: seq<int>, left: seq<int>, right: seq<int>)
  {
    && (forall i :: 0 <= i < |b| ==> 0 <= b[i] < |left| && b[i] < |right|)
    && (forall i, j :: 0 <= i < j < |b| ==> b[i] != b[j])
    && (forall i :: 0 <= i < |b| - 1 ==> right[b[i]] == b[i + 1] && left[b[i + 1]] == b[i])
  }

  /**
   * ELinsert's four link writes splice `x` in after position `k`: the list
   * stays doubly linked with `x` between b[k] and b[k + 1].
   */
  lemma SpliceIn(b: seq<int>, left: seq<int>, right: seq<int>, k: int, x: int)
    requires Linked(b, left, right) && 0 <= k < |b| - 1
    requires 0 <= x < |left| && x < |right| && x !in b
    ensures Linked(b[..k + 1] + [x] + b[k + 1..],
                   left[x := b[k]][b[k + 1] := x], right[x := b[k + 1]][b[k] := x])
  {
    var nb := b[..k + 1] + [x] + b[k + 1..];
    var nl := left[x := b[k]][b[k + 1] := x];
    var nr := right[x := b[k + 1]][b[k] := x];
    assert forall i :: 0 <= i <= k ==> nb[i] == b[i];
    assert nb[k + 1] == x;
    assert forall i :: k + 1 < i < |nb| ==> nb[i] == b[i - 1];
    forall i | 0 <= i < |nb| - 1
      ensures nr[nb[i]] == nb[i + 1] && nl[nb[i + 1]] == nb[i]
    {
      if i < k {
        assert b[i] != b[k] && b[i + 1] != b[k + 1];
      } else if i > k + 1 {
        assert b[i - 1] != b[k] && b[i] != b[k + 1];
      }
    }
  }

  /**
   * ELdelete's two link writes take b[k] out: its neighbours now point at
   * each other and the list stays doubly linked.
   */
  lemma SpliceOut(b: seq<int>, left: seq<int>, right: seq<int>, k: int)
    requires Linked(b, left, right) && 0 < k < |b| - 1
    ensures Linked(b[..k] + b[k + 1..], left[b[k + 1] := b[k - 1]], right[b[k - 1] := b[k + 1]])
  {
    var nb := b[..k] + b[k + 1..];
    var nl := left[b[k + 1] := b[k - 1]];
    var nr := right[b[k - 1] := b[k + 1]];
    assert forall i :: 0 <= i < k ==> nb[i] == b[i];
    assert forall i :: k <= i < |nb| ==> nb[i] == b[i + 1];
    forall i | 0 <= i < |nb| - 1
      ensures nr[nb[i]] == nb[i + 1] && nl[nb[i + 1]] == nb[i]
    {
      if i < k - 1 {
        assert b[i] != b[k - 1] && b[i + 1] != b[k + 1];
      } else if i >= k {
        assert b[i + 1] != b[k - 1] && b[i + 2] != b[k + 1];
      }
    }
  }

  /**
   * The shape of the beach line `b` over the link arrays: it runs from the
   * left sentinel to the right one, is doubly linked, and holds live,
   * not-deleted half-edges; the sentinels have no outer links and no edge.
   */
  ghost predicate BeachShape(b: seq<int>, lEnd: int, rEnd: int, left: seq<int>, right: seq<int>,
                             edge: seq<int>, free: seq<nat>)
  {
    && |b| >= 2 && b[0] == lEnd && b[|b| - 1] == rEnd
    && Linked(b, left, right)
    && (forall i :: 0 <= i < |b| ==> 0 <= b[i] < |edge| && b[i] !in free && edge[b[i]] != DELETED)
    && 0 <= lEnd < |left| && 0 <= rEnd < |right| && lEnd < |edge| && rEnd < |edge|
    && left[lEnd] == NULL && right[rEnd] == NULL && edge[lEnd] == NULL && edge[rEnd] == NULL
  }

  /** Every half-edge cached in table `t` that is not tombstoned is on the beach line `b`. */
  ghost predicate CachedOnBeach(t: seq<int>, edge: seq<int>, b: seq<int>)
  {
    forall c :: 0 <= c < |t| && 0 <= t[c] < |edge| && edge[t[c]] != DELETED ==> t[c] in b
  }

  /** Caching a half-edge of the beach line keeps every cached live half-edge on it. */
  lemma CacheOnBeach(t: seq<int>, edge: seq<int>, b: seq<int>, c: int, he: int)
    requires CachedOnBeach(t, edge, b) && 0 <= c < |t| && he in b
    ensures CachedOnBeach(t[c := he], edge, b)
  {
  }

  /** Two live half-edges without edges, linked only to each other, form a beach line. */
  lemma InitKeepsBeach(l: int, r: int, left: seq<int>, right: seq<int>, edge: seq<int>, free: seq<nat>)
    requires 0 <= l < |left| && 0 <= r < |left| && |right| == |left| && |edge| == |left| && l != r
    requires left[l] == NULL && right[l] == r && left[r] == l && right[r] == NULL
    requires edge[l] == NULL && edge[r] == NULL && l !in free && r !in free
    ensures BeachShape([l, r], l, r, left, right, edge, free)
  {
  }

  /** Inserting `x` after position `k` keeps the shape and every old member. */
  lemma InsertKeepsShape(b: seq<int>, lEnd: int, rEnd: int, left: seq<int>, right: seq<int>,
                         edge: seq<int>, free: seq<nat>, k: int, x: int)
    requires BeachShape(b, lEnd, rEnd, left, right, edge, free) && 0 <= k < |b| - 1
    requires 0 <= x < |left| && x < |right| && x < |edge| && x !in b && x !in free && edge[x] != DELETED
    ensures BeachShape(b[..k + 1] + [x] + b[k + 1..], lEnd, rEnd,
                       left[x := b[k]][b[k + 1] := x], right[x := b[k + 1]][b[k] := x], edge, free)
    ensures forall y :: y in b ==> y in b[..k + 1] + [x] + b[k + 1..]
  {
    var nb := b[..k + 1] + [x] + b[k + 1..];
    SpliceIn(b, left, right, k, x);
    forall i | 0 <= i < |nb|
      ensures 0 <= nb[i] < |edge| && nb[i] !in free && edge[nb[i]] != DELETED
    {
      if i <= k {
        assert nb[i] == b[i];
      } else if i > k + 1 {
        assert nb[i] == b[i - 1];
      }
    }
    assert b[k + 1] != lEnd && b[k] != rEnd by {
      assert b[0] != b[k + 1] && b[k] != b[|b| - 1];
    }
    assert forall y :: y in b ==> y in nb by {
      forall y | y in b ensures y in nb {
        var i :| 0 <= i < |b| && b[i] == y;
        if i <= k { assert nb[i] == b[i]; } else { assert nb[i + 1] == b[i]; }
      }
    }
  }

  /**
   * Taking out b[k] (not a sentinel) and tombstoning it keeps the shape;
   * every other member stays.
   */
  lemma DeleteKeepsShape(b: seq<int>, lEnd: int, rEnd: int, left: seq<int>, right: seq<int>,
                         edge: seq<int>, free: seq<nat>, k: int)
    requires BeachShape(b, lEnd, rEnd, left, right, edge, free) && 0 < k < |b| - 1
    ensures BeachShape(b[..k] + b[k + 1..], lEnd, rEnd,
                       left[b[k + 1] := b[k - 1]], right[b[k - 1] := b[k + 1]], edge[b[k] := DELETED], free)
    ensures forall y :: y in b && y != b[k] <==> y in b[..k] + b[k + 1..]
  {
    var nb := b[..k] + b[k + 1..];
    SpliceOut(b, left, right, k);
    assert forall i :: 0 <= i < k ==> nb[i] == b[i];
    assert forall i :: k <= i < |nb| ==> nb[i] == b[i + 1];
    assert b[k + 1] != lEnd && b[k - 1] != rEnd && b[k] != lEnd && b[k] != rEnd by {
      assert b[0] != b[k + 1] && b[k - 1] != b[|b| - 1] && b[0] != b[k] && b[k] != b[|b| - 1];
    }
    forall y ensures y in b && y != b[k] <==> y in nb {
      if y in b && y != b[k] {
        var i :| 0 <= i < |b| && b[i] == y;
        if i < k { assert nb[i] == y; } else { assert nb[i - 1] == y; }
      }
      if y in nb {
        var i :| 0 <= i < |nb| && nb[i] == y;
        if i < k { assert b[i] == y; } else { assert b[i + 1] == y; }
      }
    }
  }

  /**
   * The ELhash table `t` as a sequence: the sentinels in the two end buckets,
   * every slot NULL or a half-edge that is not free, and each half-edge's
   * count equal to the number of inner buckets caching it.
   */
  ghost predicate HashShape(t: seq<int>, lEnd: int, rEnd: int, rc: seq<int>, free: seq<nat>)
  {
    && |t| >= 2 && t[0] == lEnd && t[|t| - 1] == rEnd
    && (forall b :: 0 <= b < |t| ==> t[b] == NULL || (0 <= t[b] < |rc| && t[b] !in free))
    && (forall h :: 0 <= h < |rc| ==> rc[h] == multiset(t[1..|t| - 1])[h])
  }

  /** A table whose inner buckets are all empty, over counts that are all zero, is sound. */
  lemma InitKeepsHash(t: seq<int>, lEnd: int, rEnd: int, rc: seq<int>, free: seq<nat>)
    requires |t| >= 2 && t[0] == lEnd && t[|t| - 1] == rEnd
    requires 0 <= lEnd < |rc| && 0 <= rEnd < |rc| && lEnd !in free && rEnd !in free
    requires forall b :: 0 < b < |t| - 1 ==> t[b] == NULL
    requires forall h :: 0 <= h < |rc| ==> rc[h] == 0
    ensures HashShape(t, lEnd, rEnd, rc, free)
  {
    forall h | 0 <= h < |rc|
      ensures rc[h] == multiset(t[1..|t| - 1])[h]
    {
      assert h !in t[1..|t| - 1];
    }
  }

  /**
   * ELgethash's pruning: clearing inner slot `b` and dropping the count of
   * the half-edge it held keeps the table sound.
   */
  lemma ClearKeepsHash(t: seq<int>, lEnd: int, rEnd: int, rc: seq<int>, free: seq<nat>, b: int)
    requires HashShape(t, lEnd, rEnd, rc, free) && 0 < b < |t| - 1 && t[b] != NULL
    ensures 0 <= t[b] < |rc|
    ensures HashShape(t[b := NULL], lEnd, rEnd, rc[t[b] := rc[t[b]] - 1], free)
  {
    var n := |t|;
    var inner := t[1..n - 1];
    var rc' := rc[t[b] := rc[t[b]] - 1];
    assert t[b := NULL][1..n - 1] == inner[b - 1 := NULL];
    forall h | 0 <= h < |rc'|
      ensures rc'[h] == multiset(t[b := NULL][1..n - 1])[h]
    {
      UpdatedCount(inner, b - 1, NULL, h);
    }
  }

  /**
   * A half-edge whose count is 0 and that is neither sentinel is in no
   * bucket, so handing it back to the free list keeps the table sound.
   */
  lemma FreeKeepsHash(t: seq<int>, lEnd: int, rEnd: int, rc: seq<int>, free: seq<nat>, h: nat)
    requires HashShape(t, lEnd, rEnd, rc, free) && h < |rc| && rc[h] == 0 && h != lEnd && h != rEnd
    ensures HashShape(t, lEnd, rEnd, rc, [h] + free)
  {
    var n := |t|;
    forall c | 1 <= c < n - 1
      ensures t[c] != h
    {
      assert t[c] == t[1..n - 1][c - 1];
      assert t[c] in multiset(t[1..n - 1]);
    }
  }

  /** A free half-edge is in no bucket, so its count is 0. */
  lemma FreeUncounted(t: seq<int>, lEnd: int, rEnd: int, rc: seq<int>, free: seq<nat>, h: nat)
    requires HashShape(t, lEnd, rEnd, rc, free) && h in free && h < |rc|
    ensures rc[h] == 0
  {
    assert h !in t[1..|t| - 1];
  }

  /**
   * What ELgethash may do to one bucket: keep its entry `h0`, or clear it
   * because it cached a half-edge that ELdelete tombstoned.
   */
  ghost predicate KeptOrPruned(h0: int, h: int, edge: seq<int>)
  {
    h == h0 || (h == NULL && 0 <= h0 < |edge| && edge[h0] == DELETED)
  }

  /** Every bucket of `t` keeps its entry from `t0` or was pruned of a tombstone. */
  ghost predicate PrunedFrom(t0: seq<int>, t: seq<int>, edge: seq<int>)
  {
    |t| == |t0| && forall c :: 0 <= c < |t| ==> KeptOrPruned(t0[c], t[c], edge)
  }

  /** Two rounds of pruning are one. */
  lemma PrunedTwice(t0: seq<int>, t1: seq<int>, t2: seq<int>, edge: seq<int>)
    requires PrunedFrom(t0, t1, edge) && PrunedFrom(t1, t2, edge)
    ensures PrunedFrom(t0, t2, edge)
  {
  }

  /** The free list `fl` is `fl0` with only tombstoned half-edges pushed on it. */
  ghost predicate FreedTombstones(fl0: FreeList, fl: FreeList, edge: seq<int>)
  {
    && fl.arena == fl0.arena
    && (forall h :: h in fl0.head ==> h in fl.head)
    && (forall h :: h in fl.head && h !in fl0.head ==> h < |edge| && edge[h] == DELETED)
  }

  /** Two rounds of freeing tombstones are one. */
  lemma FreedTwice(fl0: FreeList, fl1: FreeList, fl2: FreeList, edge: seq<int>)
    requires FreedTombstones(fl0, fl1, edge) && FreedTombstones(fl1, fl2, edge)
    ensures FreedTombstones(fl0, fl2, edge)
  {
  }

  /**
   * ELleftbnd's cache write: inner slot `b` now holds `r`; the count of the
   * half-edge it held drops by one and the count of `r` rises by one.
   */
  lemma CacheKeepsHash(t: seq<int>, lEnd: int, rEnd: int, rc: seq<int>, free: seq<nat>, b: int, r: int,
                        t': seq<int>, rc': seq<int>)
    requires HashShape(t, lEnd, rEnd, rc, free) && 0 < b < |t| - 1
    requires 0 <= r < |rc| && r !in free
    requires t' == t[b := r]
    requires rc' == Bumped(if t[b] == NULL then rc else Bumped(rc, t[b], -1), r, 1)
    ensures HashShape(t', lEnd, rEnd, rc', free)
  {
    var n := |t|;
    var inner := t[1..n - 1];
    assert t'[1..n - 1] == inner[b - 1 := r] && inner[b - 1] == t[b];
    forall h | 0 <= h < |rc'|
      ensures rc'[h] == multiset(t'[1..n - 1])[h]
    {
      UpdatedCount(inner, b - 1, r, h);
      assert rc'[h] == rc[h] - (if t[b] == h then 1 else 0) + (if r == h then 1 else 0);
    }
  }

  /** Overwriting slot `i` of `u` with `r` takes one `u[i]` out of its multiset and puts one `r` in. */
  lemma UpdatedCount(u: seq<int>, i: nat, r: int, h: int)
    requires i < |u|
    ensures multiset(u[i := r])[h] == multiset(u)[h] - (if u[i] == h then 1 else 0) + (if r == h then 1 else 0)
  {
    assert multiset(u[i := r]) == multiset(u) - multiset{u[i]} + multiset{r};
  }

  /**
   * Where ELleftbnd may stop on the beach line `b`: position `k` is the left
   * sentinel or right of the point, and its right neighbour is the right
   * sentinel or not right of the point.
   */
  ghost predicate LeftBoundary(b: seq<int>, rightOf: int -> bool, k: int)
  {
    && 0 <= k < |b| - 1
    && (k == 0 || rightOf(b[k]))
    && (k + 1 == |b| - 1 || !rightOf(b[k + 1]))
  }

  /**
   * When the half-edges right of the point form a prefix of the inner beach
   * line (as they do for a beach line ordered by x), the stopping place is
   * unique: the walk finds the same half-edge from whichever cached start.
   */
  lemma LeftBndUnique(b: seq<int>, rightOf: int -> bool, k1: int, k2: int)
    requires forall i, j :: 0 < i < j < |b| - 1 && rightOf(b[j]) ==> rightOf(b[i])
    requires LeftBoundary(b, rightOf, k1) && LeftBoundary(b, rightOf, k2)
    ensures k1 == k2
  {
  }

  /**
   * What the circle-event queue sees of the half-edge arena: the delayed y
   * values, the candidate vertices, the PQnext links, the site coordinates
   * and the PQhash scaling.
   */
  datatype QKeys = QKeys(ystar: seq<real>, vertex: seq<int>, next: seq<int>, coord: seq<Point>,
                         ymin: real, ymax: real, size: nat)

  /** Half-edge `n` may hang in bucket `b`: it has a vertex, and its key maps to `b`. */
  ghost predicate QueuedIn(k: QKeys, n: int, b: int)
  {
    && 0 <= n < |k.ystar| && n < |k.vertex| && n < |k.next|
    && 0 <= k.vertex[n] < |k.coord| && k.size >= 1
    && PQBucketIndex(k.ystar[n], k.ymin, k.ymax, k.size) == b
  }

  /** The x half of a queued half-edge's key: the x of its vertex. */
  ghost function VertexX(k: QKeys, n: int): real
    requires 0 <= n < |k.vertex| && 0 <= k.vertex[n] < |k.coord|
  {
    k.coord[k.vertex[n]].x
  }

  /** Every member of `s` may hang in bucket `b`. */
  ghost predicate AllQueuedIn(k: QKeys, s: seq<int>, b: int)
  {
    forall i :: 0 <= i < |s| ==> QueuedIn(k, s[i], b)
  }

  /** `s` is the list reached through PQnext: each member links to the next, the last to NULL. */
  ghost predicate Chained(next: seq<int>, s: seq<int>)
  {
    && (forall i :: 0 <= i < |s| ==> 0 <= s[i] < |next|)
    && (forall i {:trigger next[s[i]]} :: 0 <= i < |s| ==> next[s[i]] == (if i + 1 < |s| then s[i + 1] else NULL))
  }

  /** `s` holds no half-edge twice. */
  ghost predicate NoRepeats(s: seq<int>)
  {
    forall i, j :: 0 <= i < j < |s| ==> s[i] != s[j]
  }

  /** Every member of `s` has a key, and the keys along `s` never go down. */
  ghost predicate SortedKeys(k: QKeys, s: seq<int>)
  {
    && (forall i :: 0 <= i < |s| ==> Keyed(k, s[i]))
    && (forall i, j :: 0 <= i < j < |s| ==> !Before(k, s[j], s[i]))
  }

  /** One bucket `s` headed by `head`: its chain through PQnext, its distinct members and its ascending keys. */
  ghost predicate BucketShape(k: QKeys, b: int, s: seq<int>, head: int)
  {
    && AllQueuedIn(k, s, b)
    && head == (if s == [] then NULL else s[0])
    && Chained(k.next, s)
    && NoRepeats(s)
    && SortedKeys(k, s)
  }

  /** Every bucket of `bs` is sound with its head in `heads`. */
  ghost predicate AllBuckets(k: QKeys, bs: seq<seq<int>>, heads: seq<int>)
    requires |bs| == |heads|
  {
    forall b {:trigger BucketShape(k, b, bs[b], heads[b])} :: 0 <= b < |bs| ==> BucketShape(k, b, bs[b], heads[b])
  }

  /**
   * PQhash as buckets `bs` with heads `heads`: every bucket is sound, every
   * bucket below the cursor `m` is empty, and `count` is the number queued.
   */
  ghost predicate QueueShape(k: QKeys, bs: seq<seq<int>>, heads: seq<int>, m: int, count: int)
  {
    && |bs| == |heads| == k.size
    && 0 <= m < |bs|
    && AllBuckets(k, bs, heads)
    && (forall b :: 0 <= b < m ==> bs[b] == [])
    && count == TotalSize(bs)
  }

  /** Every queued half-edge may hang in the bucket it is in. */
  lemma AllQueued(k: QKeys, bs: seq<seq<int>>, heads: seq<int>, m: int, count: int)
    requires QueueShape(k, bs, heads, m, count)
    ensures forall b, i :: 0 <= b < |bs| && 0 <= i < |bs[b]| ==> QueuedIn(k, bs[b][i], b)
  {
    forall b, i | 0 <= b < |bs| && 0 <= i < |bs[b]|
      ensures QueuedIn(k, bs[b][i], b)
    {
      assert BucketShape(k, b, bs[b], heads[b]);
    }
  }

  /** Every member of the buckets `bs` is on the beach line `beach`. */
  ghost predicate MembersOn(bs: seq<seq<int>>, beach: seq<int>)
  {
    forall b, i :: 0 <= b < |bs| && 0 <= i < |bs[b]| ==> bs[b][i] in beach
  }

  /** The candidate vertex of every member of `bs` is a site slot below `n` and off the free list `free`. */
  ghost predicate VerticesLive(bs: seq<seq<int>>, vertex: seq<int>, n: int, free: seq<nat>)
  {
    forall b, i :: 0 <= b < |bs| && 0 <= i < |bs[b]| && 0 <= bs[b][i] < |vertex| ==>
      0 <= vertex[bs[b][i]] < n && vertex[bs[b][i]] !in free
  }

  /** Giving any half-edge a live vertex keeps every queued vertex live. */
  lemma VerticesLiveUpdate(bs: seq<seq<int>>, vertex: seq<int>, n: int, free: seq<nat>, h: int, x: int)
    requires VerticesLive(bs, vertex, n, free) && 0 <= h < |vertex| && 0 <= x < n && x !in free
    ensures VerticesLive(bs, vertex[h := x], n, free)
  {
    forall b, i | 0 <= b < |bs| && 0 <= i < |bs[b]| && 0 <= bs[b][i] < |vertex|
      ensures 0 <= vertex[h := x][bs[b][i]] < n && vertex[h := x][bs[b][i]] !in free
    {
    }
  }

  /** `n` hangs in none of the buckets `bs`. */
  ghost predicate Absent(bs: seq<seq<int>>, n: int)
  {
    forall c, i :: 0 <= c < |bs| && 0 <= i < |bs[c]| ==> bs[c][i] != n
  }

  /** No member of `bs` other than `he` has `v` as its candidate vertex. */
  ghost predicate VertexAbsent(bs: seq<seq<int>>, vertex: seq<int>, v: int, he: int)
  {
    forall c, i :: 0 <= c < |bs| && 0 <= i < |bs[c]| && 0 <= bs[c][i] < |vertex| && bs[c][i] != he ==>
      vertex[bs[c][i]] != v
  }

  /** Taking `bs[b][p]` out: if only it had vertex `v`, now no member has. */
  lemma RemoveKeepsVertexAbsent(bs: seq<seq<int>>, b: int, p: nat, vertex: seq<int>, v: int)
    requires 0 <= b < |bs| && p < |bs[b]| && VertexAbsent(bs, vertex, v, bs[b][p])
    requires Absent(bs[b := Removed(bs[b], p)], bs[b][p])
    ensures VertexAbsent(bs[b := Removed(bs[b], p)], vertex, v, NULL)
  {
    var bs2 := bs[b := Removed(bs[b], p)];
    forall c, i | 0 <= c < |bs2| && 0 <= i < |bs2[c]| && 0 <= bs2[c][i] < |vertex|
      ensures vertex[bs2[c][i]] != v
    {
      assert bs2[c][i] != bs[b][p];
      if c != b {
        assert bs2[c][i] == bs[c][i];
      } else if i < p {
        assert bs2[c][i] == bs[b][i];
      } else {
        assert bs2[c][i] == bs[b][i + 1];
      }
    }
  }

  /** Clearing the vertex of a half-edge that hangs nowhere keeps every queued vertex live. */
  lemma VerticesLiveClear(bs: seq<seq<int>>, vertex: seq<int>, n: int, free: seq<nat>, h: int)
    requires VerticesLive(bs, vertex, n, free) && 0 <= h < |vertex| && Absent(bs, h)
    ensures VerticesLive(bs, vertex[h := NULL], n, free)
  {
    forall c, i | 0 <= c < |bs| && 0 <= i < |bs[c]| && 0 <= bs[c][i] < |vertex|
      ensures 0 <= vertex[h := NULL][bs[c][i]] < n && vertex[h := NULL][bs[c][i]] !in free
    {
      assert bs[c][i] != h;
    }
  }

  /** The buckets after PQextractmin took the head of bucket `m`. */
  function DropHead(bs: seq<seq<int>>, m: int): (r: seq<seq<int>>)
    requires 0 <= m < |bs| && bs[m] != []
    ensures |r| == |bs| && r[m] == bs[m][1..]
    ensures forall b :: 0 <= b < |bs| && b != m ==> r[b] == bs[b]
  {
    bs[m := bs[m][1..]]
  }

  /** Queued half-edge `n` keeps its key, its link and its vertex's place when the view changes from `k` to `k2`. */
  ghost predicate SameKey(k: QKeys, k2: QKeys, n: int)
  {
    0 <= n < |k.ystar| && n < |k.vertex| && n < |k.next| && 0 <= k.vertex[n] < |k.coord| ==>
      && n < |k2.ystar| && n < |k2.vertex| && n < |k2.next| && k.vertex[n] < |k2.coord|
      && k2.ystar[n] == k.ystar[n] && k2.vertex[n] == k.vertex[n] && k2.next[n] == k.next[n]
      && k2.coord[k.vertex[n]] == k.coord[k.vertex[n]]
  }

  /** The queue shape only depends on what its members see: keys, links and vertex positions. */
  lemma QueueShapeFrame(k: QKeys, k2: QKeys, bs: seq<seq<int>>, heads: seq<int>, m: int, count: int)
    requires QueueShape(k, bs, heads, m, count)
    requires k2.ymin == k.ymin && k2.ymax == k.ymax && k2.size == k.size
    requires forall b, i :: 0 <= b < |bs| && 0 <= i < |bs[b]| ==> SameKey(k, k2, bs[b][i])
    ensures QueueShape(k2, bs, heads, m, count)
  {
    forall b | 0 <= b < |bs|
      ensures BucketShape(k2, b, bs[b], heads[b])
    {
      assert BucketShape(k, b, bs[b], heads[b]);
      BucketShapeFrame(k, k2, b, bs[b], heads[b]);
    }
  }

  /** One bucket keeps its shape when each member keeps its key, link and vertex position. */
  lemma BucketShapeFrame(k: QKeys, k2: QKeys, b: int, s: seq<int>, head: int)
    requires BucketShape(k, b, s, head)
    requires k2.ymin == k.ymin && k2.ymax == k.ymax && k2.size == k.size
    requires forall i :: 0 <= i < |s| ==> SameKey(k, k2, s[i])
    ensures BucketShape(k2, b, s, head)
  {
    forall i | 0 <= i < |s|
      ensures QueuedIn(k2, s[i], b) && k2.ystar[s[i]] == k.ystar[s[i]] && VertexX(k2, s[i]) == VertexX(k, s[i])
    {
      assert QueuedIn(k, s[i], b) && SameKey(k, k2, s[i]);
    }
  }

  /** Dropping the first member of a sound bucket leaves a sound bucket headed by its successor. */
  lemma BucketTail(k: QKeys, b: int, s: seq<int>, head: int)
    requires BucketShape(k, b, s, head) && s != []
    ensures QueuedIn(k, s[0], b) && BucketShape(k, b, s[1..], k.next[s[0]])
  {
    var t := s[1..];
    forall i | 0 <= i < |t|
      ensures k.next[t[i]] == (if i + 1 < |t| then t[i + 1] else NULL)
    {
      assert t[i] == s[i + 1];
    }
  }

  /**
   * PQextractmin on values: unhooking the head of bucket `m` leaves a sound
   * queue with one member fewer, whose members are the old ones except the
   * head, each in its old place.
   */
  lemma ExtractKeepsShape(k: QKeys, bs: seq<seq<int>>, heads: seq<int>, m: int, count: int)
    requires QueueShape(k, bs, heads, m, count) && bs[m] != []
    ensures QueuedIn(k, bs[m][0], m)
    ensures QueueShape(k, DropHead(bs, m), heads[m := k.next[bs[m][0]]], m, count - 1)
    ensures forall b, i :: 0 <= b < |bs| && 0 <= i < |DropHead(bs, m)[b]| ==>
      DropHead(bs, m)[b][i] == bs[b][if b == m then i + 1 else i] && DropHead(bs, m)[b][i] != bs[m][0]
  {
    var s := bs[m];
    assert BucketShape(k, m, s, heads[m]);
    var bs' := DropHead(bs, m);
    var heads' := heads[m := k.next[s[0]]];
    BucketTail(k, m, s, heads[m]);
    TotalSizeUpdate(bs, m, s[1..]);
    forall b | 0 <= b < |bs'|
      ensures BucketShape(k, b, bs'[b], heads'[b])
    {
      assert BucketShape(k, b, bs[b], heads[b]);
      assert b != m ==> bs'[b] == bs[b] && heads'[b] == heads[b];
    }
    forall b, i | 0 <= b < |bs| && 0 <= i < |bs'[b]|
      ensures bs'[b][i] == bs[b][if b == m then i + 1 else i] && bs'[b][i] != s[0]
    {
      var j := if b == m then i + 1 else i;
      assert BucketShape(k, b, bs[b], heads[b]);
      assert QueuedIn(k, bs[b][j], b);
    }
  }

  /** A bucket is empty exactly when its PQhash head is NULL. */
  lemma EmptyHeads(k: QKeys, bs: seq<seq<int>>, heads: seq<int>, m: int, count: int)
    requires QueueShape(k, bs, heads, m, count)
    ensures forall b :: 0 <= b < |bs| ==> (heads[b] == NULL <==> bs[b] == [])
  {
    forall b | 0 <= b < |bs|
      ensures heads[b] == NULL <==> bs[b] == []
    {
      assert BucketShape(k, b, bs[b], heads[b]);
      if bs[b] != [] {
        assert QueuedIn(k, bs[b][0], b);
      }
    }
  }

  /**
   * The head of the first non-empty bucket has a least key of the whole
   * queue: buckets below the cursor are empty, a bucket is sorted, and a
   * higher bucket only holds higher delayed y values.
   */
  lemma HeadIsMin(k: QKeys, bs: seq<seq<int>>, heads: seq<int>, m: int, count: int)
    requires QueueShape(k, bs, heads, m, count) && bs[m] != []
    ensures QueuedIn(k, bs[m][0], m)
    ensures forall b, i :: 0 <= b < |bs| && 0 <= i < |bs[b]| ==>
      QueuedIn(k, bs[b][i], b) &&
      !KeyBefore(k.ystar[bs[b][i]], VertexX(k, bs[b][i]), k.ystar[bs[m][0]], VertexX(k, bs[m][0]))
  {
    var h := bs[m][0];
    assert BucketShape(k, m, bs[m], heads[m]);
    forall b, i | 0 <= b < |bs| && 0 <= i < |bs[b]|
      ensures QueuedIn(k, bs[b][i], b) && !KeyBefore(k.ystar[bs[b][i]], VertexX(k, bs[b][i]), k.ystar[h], VertexX(k, h))
    {
      var n := bs[b][i];
      assert BucketShape(k, b, bs[b], heads[b]);
      if b > m && k.ystar[n] <= k.ystar[h] {
        PQBucketMonotone(k.ystar[n], k.ystar[h], k.ymin, k.ymax, k.size);
      }
    }
  }

  /** Members taken from the old buckets in place keep being on the beach line and keep live vertices. */
  lemma ExtractKeepsMembers(bs: seq<seq<int>>, m: int, beach: seq<int>, vertex: seq<int>, n: int, free: seq<nat>)
    requires 0 <= m < |bs| && bs[m] != []
    requires MembersOn(bs, beach) && VerticesLive(bs, vertex, n, free)
    ensures MembersOn(DropHead(bs, m), beach) && VerticesLive(DropHead(bs, m), vertex, n, free)
  {
    var bs' := DropHead(bs, m);
    forall b, i | 0 <= b < |bs'| && 0 <= i < |bs'[b]|
      ensures bs'[b][i] in beach && (0 <= bs'[b][i] < |vertex| ==> 0 <= vertex[bs'[b][i]] < n && vertex[bs'[b][i]] !in free)
    {
      var j := if b == m then i + 1 else i;
      assert bs'[b][i] == bs[b][j];
    }
  }

  /** `n` has a key in the view `k`: a delayed y, a PQnext slot and a vertex with coordinates. */
  ghost predicate Keyed(k: QKeys, n: int)
  {
    0 <= n < |k.ystar| && n < |k.vertex| && n < |k.next| && 0 <= k.vertex[n] < |k.coord|
  }

  /** The key of `a` is strictly before the key of `c` in the queue order. */
  ghost predicate Before(k: QKeys, a: int, c: int)
    requires Keyed(k, a) && Keyed(k, c)
  {
    KeyBefore(k.ystar[a], VertexX(k, a), k.ystar[c], VertexX(k, c))
  }

  /**
   * Where PQinsert puts `n` in bucket `s`: after every member whose key is
   * strictly before its own, in front of the first one that is not.
   */
  ghost function InsertPos(k: QKeys, s: seq<int>, n: int): (p: nat)
    requires Keyed(k, n) && forall i :: 0 <= i < |s| ==> Keyed(k, s[i])
    ensures p <= |s|
    ensures forall i :: 0 <= i < p ==> Before(k, s[i], n)
    ensures p < |s| ==> !Before(k, s[p], n)
    decreases |s|
  {
    if s == [] || !Before(k, s[0], n) then 0
    else
      assert forall i :: 0 <= i < |s| - 1 ==> s[1..][i] == s[i + 1];
      1 + InsertPos(k, s[1..], n)
  }

  /** Bucket `s` with `n` spliced in at position `p`. */
  function Spliced(s: seq<int>, p: nat, n: int): (t: seq<int>)
    requires p <= |s|
    ensures |t| == |s| + 1 && t[p] == n
    ensures forall i :: 0 <= i < p ==> t[i] == s[i]
    ensures forall i :: p < i < |t| ==> t[i] == s[i - 1]
  {
    s[..p] + [n] + s[p..]
  }

  /** The PQnext links after splicing `n` in at position `p` of bucket `s`. */
  function RelinkedNext(next: seq<int>, s: seq<int>, p: nat, n: int): (r: seq<int>)
    requires p <= |s| && 0 <= n < |next| && (p > 0 ==> 0 <= s[p - 1] < |next|)
    ensures |r| == |next|
    ensures p > 0 ==> r[s[p - 1]] == n
    ensures p == 0 || s[p - 1] != n ==> r[n] == (if p < |s| then s[p] else NULL)
    ensures forall y :: 0 <= y < |next| && y != n && (p == 0 || y != s[p - 1]) ==> r[y] == next[y]
  {
    var nx := next[n := if p < |s| then s[p] else NULL];
    if p == 0 then nx else nx[s[p - 1] := n]
  }

  /** Splicing `n` in at position `p` keeps `s` a chain through the relinked PQnext. */
  lemma SpliceChain(next: seq<int>, s: seq<int>, p: nat, n: int)
    requires p <= |s| && 0 <= n < |next| && n !in s
    requires NoRepeats(s) && Chained(next, s)
    ensures Chained(RelinkedNext(next, s, p, n), Spliced(s, p, n))
  {
    var t := Spliced(s, p, n);
    var r := RelinkedNext(next, s, p, n);
    forall i | 0 <= i < |t|
      ensures 0 <= t[i] < |r| && r[t[i]] == (if i + 1 < |t| then t[i + 1] else NULL)
    {
      if i < p {
        assert t[i] == s[i] && t[i] != n;
        if i + 1 < p {
          assert t[i] != s[p - 1];
        }
      } else if i > p {
        assert t[i] == s[i - 1] && t[i] != n;
        assert p > 0 ==> t[i] != s[p - 1];
      }
    }
  }

  /**
   * Splicing `n` in at its insertion position keeps a bucket in ascending key
   * order, read in any view `k2` with the same keys.
   */
  lemma SpliceSorted(k: QKeys, k2: QKeys, s: seq<int>, n: int)
    requires Keyed(k, n) && forall i :: 0 <= i < |s| ==> Keyed(k, s[i])
    requires SortedKeys(k, s)
    requires k2.ystar == k.ystar && k2.vertex == k.vertex && k2.coord == k.coord && |k2.next| == |k.next|
    ensures SortedKeys(k2, Spliced(s, InsertPos(k, s, n), n))
  {
    var p := InsertPos(k, s, n);
    var t := Spliced(s, p, n);
    forall i | 0 <= i < |t|
      ensures Keyed(k, t[i])
    {
      if i < p {
        assert t[i] == s[i];
      } else if i > p {
        assert t[i] == s[i - 1];
      }
    }
    forall i, j | 0 <= i < j < |t|
      ensures !Before(k, t[j], t[i])
    {
      if j < p {
        assert t[i] == s[i] && t[j] == s[j];
      } else if i > p {
        assert t[i] == s[i - 1] && t[j] == s[j - 1];
      } else if i == p {
        assert t[i] == n && t[j] == s[j - 1];
        if j > p + 1 {
          NotBeforeTrans(k, n, s[p], s[j - 1]);
        }
      } else if j == p {
        assert t[i] == s[i] && t[j] == n;
        BeforeAsym(k, s[i], n);
      } else {
        assert t[i] == s[i] && t[j] == s[j - 1];
      }
    }
    assert SortedKeys(k, t);
    SortedInSameKeys(k, k2, t);
  }

  /** Ascending key order depends only on the keys, not on the PQnext links of the view. */
  lemma SortedInSameKeys(k: QKeys, k2: QKeys, t: seq<int>)
    requires SortedKeys(k, t)
    requires k2.ystar == k.ystar && k2.vertex == k.vertex && k2.coord == k.coord && |k2.next| == |k.next|
    ensures SortedKeys(k2, t)
  {
    forall i | 0 <= i < |t|
      ensures Keyed(k2, t[i])
    {
    }
    forall i, j | 0 <= i < j < |t|
      ensures !Before(k2, t[j], t[i])
    {
      BeforeSameKeys(k, k2, t[j], t[i]);
    }
  }

  /** Two views with the same keys order every pair of keyed half-edges alike. */
  lemma BeforeSameKeys(k: QKeys, k2: QKeys, a: int, c: int)
    requires Keyed(k, a) && Keyed(k, c)
    requires k2.ystar == k.ystar && k2.vertex == k.vertex && k2.coord == k.coord && |k2.next| == |k.next|
    ensures Keyed(k2, a) && Keyed(k2, c) && Before(k2, a, c) == Before(k, a, c)
  {
    assert VertexX(k2, a) == VertexX(k, a) && VertexX(k2, c) == VertexX(k, c);
  }

  /** The queue order is a preorder: a key not after `m`, and `m` not after `c`, is not after `c`. */
  lemma NotBeforeTrans(k: QKeys, a: int, m: int, c: int)
    requires Keyed(k, a) && Keyed(k, m) && Keyed(k, c)
    requires !Before(k, m, a) && !Before(k, c, m)
    ensures !Before(k, c, a)
  {
  }

  /** A key strictly before another is not also after it. */
  lemma BeforeAsym(k: QKeys, a: int, c: int)
    requires Keyed(k, a) && Keyed(k, c) && Before(k, a, c)
    ensures !Before(k, c, a)
  {
  }

  /**
   * Splicing `n`, keyed for bucket `b` and not yet in it, in at its insertion
   * position keeps the bucket a sorted chain of distinct members.
   */
  lemma InsertKeepsBucket(k: QKeys, b: int, s: seq<int>, head: int, n: int)
    requires BucketShape(k, b, s, head) && QueuedIn(k, n, b) && n !in s
    ensures forall i :: 0 <= i < |s| ==> Keyed(k, s[i])
    ensures var p := InsertPos(k, s, n);
      BucketShape(k.(next := RelinkedNext(k.next, s, p, n)), b, Spliced(s, p, n), if p == 0 then n else head)
  {
    QueuedKeyed(k, s, b);
    var p := InsertPos(k, s, n);
    var k2 := k.(next := RelinkedNext(k.next, s, p, n));
    SpliceChain(k.next, s, p, n);
    SpliceSorted(k, k2, s, n);
    SpliceDistinct(s, p, n);
    SpliceQueuedIn(k, k2, s, p, n, b);
  }

  /** Members that may hang in a bucket have keys. */
  lemma QueuedKeyed(k: QKeys, s: seq<int>, b: int)
    requires AllQueuedIn(k, s, b)
    ensures forall i :: 0 <= i < |s| ==> Keyed(k, s[i])
  {
    assert forall i :: 0 <= i < |s| ==> QueuedIn(k, s[i], b);
  }

  /** The members of a bucket with `n` spliced in may all hang there, in a view that only relinks PQnext. */
  lemma SpliceQueuedIn(k: QKeys, k2: QKeys, s: seq<int>, p: nat, n: int, b: int)
    requires AllQueuedIn(k, s, b) && QueuedIn(k, n, b) && p <= |s|
    requires k2 == k.(next := k2.next) && |k2.next| == |k.next|
    ensures AllQueuedIn(k2, Spliced(s, p, n), b)
  {
    var t := Spliced(s, p, n);
    forall i | 0 <= i < |t|
      ensures QueuedIn(k2, t[i], b)
    {
      assert QueuedIn(k, t[i], b) by {
        if i < p {
          assert t[i] == s[i];
        } else if i > p {
          assert t[i] == s[i - 1];
        }
      }
    }
  }

  /** Splicing a new member into a sequence without repeats gives a sequence without repeats. */
  lemma SpliceDistinct(s: seq<int>, p: nat, n: int)
    requires p <= |s| && n !in s && NoRepeats(s)
    ensures NoRepeats(Spliced(s, p, n))
  {
    var t := Spliced(s, p, n);
    forall i, j | 0 <= i < j < |t|
      ensures t[i] != t[j]
    {
      var si := if i < p then i else i - 1;
      var sj := if j < p then j else j - 1;
      if i != p && j != p {
        assert t[i] == s[si] && t[j] == s[sj] && si < sj;
      } else if i == p {
        assert t[j] == s[sj];
      } else {
        assert t[i] == s[si];
      }
    }
  }

  /**
   * PQinsert on values: `n`, keyed for bucket `b` at or above the cursor and
   * not queued, spliced in at its insertion position leaves a sound queue
   * with one member more.
   */
  lemma InsertKeepsQueue(k: QKeys, bs: seq<seq<int>>, heads: seq<int>, m: int, count: int, b: int, n: int)
    requires QueueShape(k, bs, heads, m, count) && m <= b < |bs| && QueuedIn(k, n, b)
    requires forall c, i :: 0 <= c < |bs| && 0 <= i < |bs[c]| ==> bs[c][i] != n
    ensures forall i :: 0 <= i < |bs[b]| ==> Keyed(k, bs[b][i])
    ensures var p := InsertPos(k, bs[b], n);
      QueueShape(k.(next := RelinkedNext(k.next, bs[b], p, n)), bs[b := Spliced(bs[b], p, n)],
                 heads[b := if p == 0 then n else heads[b]], m, count + 1)
  {
    InsertKeepsBuckets(k, bs, heads, b, n);
    var s := bs[b];
    var p := InsertPos(k, s, n);
    var bs2 := bs[b := Spliced(s, p, n)];
    TotalSizeUpdate(bs, b, Spliced(s, p, n));
    assert forall c :: 0 <= c < m ==> bs2[c] == bs[c];
  }

  /** The bucket-by-bucket half of InsertKeepsQueue. */
  lemma InsertKeepsBuckets(k: QKeys, bs: seq<seq<int>>, heads: seq<int>, b: int, n: int)
    requires |bs| == |heads| && AllBuckets(k, bs, heads) && 0 <= b < |bs| && QueuedIn(k, n, b)
    requires forall c, i :: 0 <= c < |bs| && 0 <= i < |bs[c]| ==> bs[c][i] != n
    ensures forall i :: 0 <= i < |bs[b]| ==> Keyed(k, bs[b][i])
    ensures var p := InsertPos(k, bs[b], n);
      AllBuckets(k.(next := RelinkedNext(k.next, bs[b], p, n)), bs[b := Spliced(bs[b], p, n)],
                 heads[b := if p == 0 then n else heads[b]])
  {
    var s := bs[b];
    assert BucketShape(k, b, s, heads[b]);
    assert n !in s by {
      assert forall i :: 0 <= i < |s| ==> s[i] == bs[b][i];
    }
    InsertKeepsBucket(k, b, s, heads[b], n);
    var p := InsertPos(k, s, n);
    var k2 := k.(next := RelinkedNext(k.next, s, p, n));
    var x := if p == 0 then n else s[p - 1];
    assert x == n || QueuedIn(k, x, b);
    var bs2 := bs[b := Spliced(s, p, n)];
    var heads2 := heads[b := if p == 0 then n else heads[b]];
    forall c | 0 <= c < |bs2|
      ensures BucketShape(k2, c, bs2[c], heads2[c])
    {
      if c != b {
        RelinkKeepsBucket(k, k2, c, bs[c], heads[c], b, n, x);
      }
    }
  }

  /**
   * A bucket `c` other than the one `n` was spliced into keeps its shape:
   * the only PQnext links that changed belong to `n` and to its new
   * predecessor `x` in bucket `b`, and neither hangs in `c`.
   */
  lemma RelinkKeepsBucket(k: QKeys, k2: QKeys, c: int, sc: seq<int>, head: int, b: int, n: int, x: int)
    requires BucketShape(k, c, sc, head) && c != b && QueuedIn(k, n, b) && (x == n || QueuedIn(k, x, b))
    requires k2 == k.(next := k2.next) && |k2.next| == |k.next|
    requires forall y :: 0 <= y < |k.next| && y != n && y != x ==> k2.next[y] == k.next[y]
    ensures BucketShape(k2, c, sc, head)
  {
    forall i | 0 <= i < |sc|
      ensures SameKey(k, k2, sc[i])
    {
      assert QueuedIn(k, sc[i], c);
    }
    BucketShapeFrame(k, k2, c, sc, head);
  }

  /** Bucket `s` without its member at position `p`. */
  function Removed(s: seq<int>, p: nat): (t: seq<int>)
    requires p < |s|
    ensures |t| == |s| - 1
    ensures forall i :: 0 <= i < p ==> t[i] == s[i]
    ensures forall i :: p <= i < |t| ==> t[i] == s[i + 1]
  {
    s[..p] + s[p + 1..]
  }

  /** PQnext after unlinking the member at position `p` of bucket `s`: its predecessor skips it. */
  function UnlinkedNext(next: seq<int>, s: seq<int>, p: nat): (r: seq<int>)
    requires p < |s| && 0 <= s[p] < |next| && (p > 0 ==> 0 <= s[p - 1] < |next|)
    ensures |r| == |next|
    ensures p > 0 ==> r[s[p - 1]] == next[s[p]]
    ensures forall y :: 0 <= y < |next| && (p == 0 || y != s[p - 1]) ==> r[y] == next[y]
  {
    if p == 0 then next else next[s[p - 1] := next[s[p]]]
  }

  /** Unlinking the member at position `p` keeps the rest of `s` a chain. */
  lemma RemoveChain(next: seq<int>, s: seq<int>, p: nat)
    requires p < |s| && NoRepeats(s) && Chained(next, s)
    ensures Chained(UnlinkedNext(next, s, p), Removed(s, p))
  {
    var r := UnlinkedNext(next, s, p);
    var t := Removed(s, p);
    forall i | 0 <= i < |t|
      ensures 0 <= t[i] < |r| && r[t[i]] == (if i + 1 < |t| then t[i + 1] else NULL)
    {
      if i < p {
        assert t[i] == s[i];
        if i == p - 1 {
          assert s[p] == s[p];
          assert r[s[i]] == next[s[p]];
        } else {
          assert s[i] != s[p - 1];
        }
      } else {
        assert t[i] == s[i + 1];
        assert p == 0 || s[i + 1] != s[p - 1];
      }
    }
  }

  /** Taking the member at position `p` out of a sound bucket leaves a sound bucket. */
  lemma RemoveKeepsBucket(k: QKeys, b: int, s: seq<int>, head: int, p: nat)
    requires BucketShape(k, b, s, head) && p < |s|
    ensures QueuedIn(k, s[p], b) && (p > 0 ==> QueuedIn(k, s[p - 1], b))
    ensures BucketShape(k.(next := UnlinkedNext(k.next, s, p)), b, Removed(s, p), if p == 0 then k.next[s[0]] else head)
  {
    assert QueuedIn(k, s[p], b);
    assert p > 0 ==> QueuedIn(k, s[p - 1], b);
    var k2 := k.(next := UnlinkedNext(k.next, s, p));
    RemoveChain(k.next, s, p);
    RemoveQueuedIn(k, k2, s, p, b);
    RemoveSorted(k, k2, s, p);
    if p == 0 {
      assert k.next[s[0]] == (if 1 < |s| then s[1] else NULL);
    }
  }

  /** The members left after a removal may all still hang in bucket `b`, in a view that only relinks PQnext. */
  lemma RemoveQueuedIn(k: QKeys, k2: QKeys, s: seq<int>, p: nat, b: int)
    requires AllQueuedIn(k, s, b) && p < |s|
    requires k2 == k.(next := k2.next) && |k2.next| == |k.next|
    ensures AllQueuedIn(k2, Removed(s, p), b)
  {
    var t := Removed(s, p);
    forall i | 0 <= i < |t|
      ensures QueuedIn(k2, t[i], b)
    {
      assert QueuedIn(k, t[i], b) by {
        if i < p { assert t[i] == s[i]; } else { assert t[i] == s[i + 1]; }
      }
    }
  }

  /** The members left after a removal are still distinct and in key order. */
  lemma RemoveSorted(k: QKeys, k2: QKeys, s: seq<int>, p: nat)
    requires SortedKeys(k, s) && NoRepeats(s) && p < |s|
    requires k2.ystar == k.ystar && k2.vertex == k.vertex && k2.coord == k.coord && |k2.next| == |k.next|
    ensures SortedKeys(k2, Removed(s, p))
    ensures NoRepeats(Removed(s, p))
  {
    var t := Removed(s, p);
    forall i | 0 <= i < |t|
      ensures Keyed(k, t[i])
    {
      assert t[i] == s[if i < p then i else i + 1];
    }
    forall i, j | 0 <= i < j < |t|
      ensures t[i] != t[j] && !Before(k, t[j], t[i])
    {
      var si, sj := if i < p then i else i + 1, if j < p then j else j + 1;
      assert si < sj && t[i] == s[si] && t[j] == s[sj];
    }
    SortedInSameKeys(k, k2, t);
  }

  /** The bucket-by-bucket half of RemoveKeepsQueue. */
  lemma RemoveKeepsBuckets(k: QKeys, bs: seq<seq<int>>, heads: seq<int>, b: int, p: nat)
    requires |bs| == |heads| && AllBuckets(k, bs, heads) && 0 <= b < |bs| && p < |bs[b]|
    ensures 0 <= bs[b][p] < |k.next| && (p > 0 ==> 0 <= bs[b][p - 1] < |k.next|)
    ensures AllBuckets(k.(next := UnlinkedNext(k.next, bs[b], p)), bs[b := Removed(bs[b], p)],
                       heads[b := if p == 0 then k.next[bs[b][0]] else heads[b]])
  {
    var s := bs[b];
    assert BucketShape(k, b, s, heads[b]);
    RemoveKeepsBucket(k, b, s, heads[b], p);
    var k2 := k.(next := UnlinkedNext(k.next, s, p));
    var x := if p == 0 then s[p] else s[p - 1];
    var bs2 := bs[b := Removed(s, p)];
    var heads2 := heads[b := if p == 0 then k.next[s[0]] else heads[b]];
    forall c | 0 <= c < |bs2|
      ensures BucketShape(k2, c, bs2[c], heads2[c])
    {
      if c != b {
        RelinkKeepsBucket(k, k2, c, bs[c], heads[c], b, x, x);
      }
    }
  }

  /**
   * PQdelete on values: unlinking the member at position `p` of bucket `b`
   * leaves a sound queue with one member fewer, in which it hangs nowhere.
   */
  lemma RemoveKeepsQueue(k: QKeys, bs: seq<seq<int>>, heads: seq<int>, m: int, count: int, b: int, p: nat)
    requires QueueShape(k, bs, heads, m, count) && 0 <= b < |bs| && p < |bs[b]|
    ensures m <= b && 0 <= bs[b][p] < |k.next| && (p > 0 ==> 0 <= bs[b][p - 1] < |k.next|)
    ensures QueueShape(k.(next := UnlinkedNext(k.next, bs[b], p)), bs[b := Removed(bs[b], p)],
                       heads[b := if p == 0 then k.next[bs[b][0]] else heads[b]], m, count - 1)
    ensures Absent(bs[b := Removed(bs[b], p)], bs[b][p])
  {
    RemoveKeepsBuckets(k, bs, heads, b, p);
    var s := bs[b];
    var bs2 := bs[b := Removed(s, p)];
    TotalSizeUpdate(bs, b, Removed(s, p));
    assert forall c :: 0 <= c < m ==> bs2[c] == bs[c];
    assert BucketShape(k, b, s, heads[b]) && QueuedIn(k, s[p], b);
    forall c, i | 0 <= c < |bs2| && 0 <= i < |bs2[c]|
      ensures bs2[c][i] != s[p]
    {
      if c == b {
        if i < p { assert bs2[c][i] == s[i]; } else { assert bs2[c][i] == s[i + 1]; }
      } else {
        assert BucketShape(k, c, bs[c], heads[c]) && QueuedIn(k, bs[c][i], c);
      }
    }
  }

  /** Taking a member out keeps both member facts. */
  lemma RemoveKeepsMembers(bs: seq<seq<int>>, b: int, p: nat, beach: seq<int>, vertex: seq<int>, nsite: int,
                           free: seq<nat>)
    requires 0 <= b < |bs| && p < |bs[b]|
    requires MembersOn(bs, beach) && VerticesLive(bs, vertex, nsite, free)
    ensures MembersOn(bs[b := Removed(bs[b], p)], beach)
    ensures VerticesLive(bs[b := Removed(bs[b], p)], vertex, nsite, free)
  {
    var bs2 := bs[b := Removed(bs[b], p)];
    forall c, i | 0 <= c < |bs2| && 0 <= i < |bs2[c]|
      ensures bs2[c][i] in beach &&
        (0 <= bs2[c][i] < |vertex| ==> 0 <= vertex[bs2[c][i]] < nsite && vertex[bs2[c][i]] !in free)
    {
      if c != b {
        assert bs2[c][i] == bs[c][i];
      } else if i < p {
        assert bs2[c][i] == bs[b][i];
      } else {
        assert bs2[c][i] == bs[b][i + 1];
      }
    }
  }

  /** The position a walk stops at, after keys strictly before `n` and at one that is not, is InsertPos. */
  lemma InsertPosUnique(k: QKeys, s: seq<int>, n: int, p: nat)
    requires Keyed(k, n) && forall i :: 0 <= i < |s| ==> Keyed(k, s[i])
    requires p <= |s| && (forall i :: 0 <= i < p ==> Before(k, s[i], n)) && (p < |s| ==> !Before(k, s[p], n))
    ensures p == InsertPos(k, s, n)
  {
  }

  /** Splicing `n`, which is on the beach line and has a live vertex, in keeps both member facts. */
  lemma InsertKeepsMembers(bs: seq<seq<int>>, b: int, p: nat, n: int, beach: seq<int>, vertex: seq<int>, nsite: int,
                           free: seq<nat>)
    requires 0 <= b < |bs| && p <= |bs[b]|
    requires MembersOn(bs, beach) && VerticesLive(bs, vertex, nsite, free)
    requires n in beach && 0 <= n < |vertex| && 0 <= vertex[n] < nsite && vertex[n] !in free
    ensures MembersOn(bs[b := Spliced(bs[b], p, n)], beach)
    ensures VerticesLive(bs[b := Spliced(bs[b], p, n)], vertex, nsite, free)
  {
    var bs2 := bs[b := Spliced(bs[b], p, n)];
    forall c, i | 0 <= c < |bs2| && 0 <= i < |bs2[c]|
      ensures bs2[c][i] in beach &&
        (0 <= bs2[c][i] < |vertex| ==> 0 <= vertex[bs2[c][i]] < nsite && vertex[bs2[c][i]] !in free)
    {
      if c != b {
        assert bs2[c][i] == bs[c][i];
      } else if i < p {
        assert bs2[c][i] == bs[b][i];
      } else if i > p {
        assert bs2[c][i] == bs[b][i - 1];
      }
    }
  }

  /** A half-edge without a vertex hangs in no bucket. */
  lemma NoVertexUnqueued(k: QKeys, bs: seq<seq<int>>, heads: seq<int>, m: int, count: int, n: int)
    requires QueueShape(k, bs, heads, m, count) && 0 <= n < |k.vertex| && k.vertex[n] < 0
    ensures Absent(bs, n)
  {
    forall c, i | 0 <= c < |bs| && 0 <= i < |bs[c]|
      ensures bs[c][i] != n
    {
      assert BucketShape(k, c, bs[c], heads[c]);
      assert QueuedIn(k, bs[c][i], c);
    }
  }

  /** sqrt_nsites is at least 2, since it is the root of nsites + 4. */
  type SlabSize = n: nat | n >= 2 witness 2

  class Voronoi {
    /** sqrt_nsites: slab size of every free list; ELhash has 2x, PQhash 4x this many buckets. */
    const slab: SlabSize
    const nsites: nat
    const xmin: real
    const xmax: real
    const ymin: real
    const ymax: real
    const deltax: real

    // site arena: the sorted input sites occupy 0 .. nsites-1, vertices follow
    var coord: seq<Point>
    var sitenbr: seq<int>
    var refcnt: seq<int>
    var sfl: FreeList
    var siteidx: nat
    var bottomsite: int

    // edge arena
    var reg: seq<Sides>
    var ep: seq<Sides>
    var efl: FreeList
    var nedges: nat

    // half-edge arena
    var elLeft: seq<int>
    var elRight: seq<int>
    var elEdge: seq<int>
    var elPm: seq<int>
    var elRefcnt: seq<int>
    var pqNext: seq<int>
    var vertex: seq<int>
    var ystar: seq<real>
    var hfl: FreeList

    // beach line
    var elHash: array<int>
    var leftEnd: int
    var rightEnd: int
    /** The beach line from ELleftend to ELrightend. */
    ghost var beach: seq<int>

    // circle-event queue
    var pqHash: array<int>
    var pqMin: int
    var pqCount: int
    /** The list hanging off each PQhash bucket, in list order. */
    ghost var buckets: seq<seq<int>>


    /** A site slot in use (not on the site free list). */
    ghost predicate Live(s: int)
      reads this`coord, this`sfl
    {
      0 <= s < |coord| && s !in sfl.head
    }

    /** The site arena: parallel arrays over the slots of sfl; a free slot holds no references. */
    ghost predicate SitesValid()
      reads this`coord, this`sitenbr, this`refcnt, this`sfl
    {
      SiteArena(coord, sitenbr, refcnt, sfl)
    }

    /** The edge arena: every site reference is NULL or a site slot, and an edge in use has both regions. */
    ghost predicate EdgesValid()
      reads this`reg, this`ep, this`efl, this`coord
    {
      EdgeArena(reg, ep, efl, |coord|)
    }

    /** The half-edge arena: parallel arrays over the slots of hfl, with sound edge and vertex references. */
    ghost predicate ArenaValid()
      reads this`elLeft, this`elRight, this`elEdge, this`elPm, this`pqNext,
            this`vertex, this`ystar, this`hfl, this`reg, this`coord
    {
      && |elLeft| == hfl.arena && |elRight| == hfl.arena && |elEdge| == hfl.arena && |elPm| == hfl.arena
      && |pqNext| == hfl.arena && |vertex| == hfl.arena && |ystar| == hfl.arena
      && WellFormed(hfl)
      && (forall h :: 0 <= h < hfl.arena ==>
            elEdge[h] == NULL || elEdge[h] == DELETED || 0 <= elEdge[h] < |reg|)
      && (forall h :: 0 <= h < hfl.arena ==> vertex[h] == NULL || 0 <= vertex[h] < |coord|)
      && (forall h :: 0 <= h < hfl.arena ==> elPm[h] == LE || elPm[h] == RE)
    }

    /** ELrefcnt covers the half-edge arena. */
    ghost predicate RefcntSized()
      reads this`elRefcnt, this`hfl
    {
      |elRefcnt| == hfl.arena
    }

    /** The beach line is a proper doubly linked list of live half-edges between the sentinels. */
    ghost predicate BeachValid()
      reads this`beach, this`leftEnd, this`rightEnd, this`elLeft, this`elRight, this`elEdge, this`hfl
    {
      BeachShape(beach, leftEnd, rightEnd, elLeft, elRight, elEdge, hfl.head)
    }

    /**
     * ELhash: the sentinels sit in the two end buckets, every slot is sound, and
     * a half-edge's ELrefcnt counts the inner buckets that cache it.
     */
    ghost predicate HashValid()
      reads this`elHash, elHash, this`leftEnd, this`rightEnd, this`elRefcnt, this`hfl
    {
      && elHash.Length == 2 * slab && RefcntSized()
      && HashShape(elHash[..], leftEnd, rightEnd, elRefcnt, hfl.head)
    }

    /** A cached half-edge that is not tombstoned is on the beach line. */
    ghost predicate HashOnBeach()
      reads this`elHash, elHash, this`elEdge, this`beach
    {
      CachedOnBeach(elHash[..], elEdge, beach)
    }

    /** The PQhash bucket a half-edge's delayed key belongs in. */
    ghost function BucketOf(n: int): int
      requires 0 <= n < |ystar|
      reads this`ystar
    {
      PQBucketIndex(ystar[n], ymin, ymax, 4 * slab)
    }

    /** `n` hangs in the bucket of its own key. */
    ghost predicate Queued(n: int)
      reads this`ystar, this`buckets
    {
      0 <= n < |ystar| && |buckets| == 4 * slab && n in buckets[BucketOf(n)]
    }

    /** `he` sits in no bucket of the queue. */
    ghost predicate Unqueued(he: int)
      reads this`buckets
    {
      Absent(buckets, he)
    }

    /** No queued half-edge other than `he` has `v` as its candidate vertex. */
    ghost predicate NotQueuedVertexBesides(v: int, he: int)
      reads this`buckets, this`vertex
    {
      VertexAbsent(buckets, vertex, v, he)
    }

    /** No queued half-edge has `v` as its candidate vertex. */
    ghost predicate NotQueuedVertex(v: int)
      reads this`buckets, this`vertex
    {
      NotQueuedVertexBesides(v, NULL)
    }

    /** The view of the arena the queue order depends on. */
    ghost function Keys(): (k: QKeys)
      reads this`ystar, this`vertex, this`pqNext, this`coord
      ensures k.ystar == ystar && k.vertex == vertex && k.next == pqNext && k.coord == coord && k.size == 4 * slab
    {
      QKeys(ystar, vertex, pqNext, coord, ymin, ymax, 4 * slab)
    }

    /** What the queue requires of one member `n` of bucket `b`: a vertex, and a key that maps to `b`. */
    ghost predicate QueuedOk(n: int, b: int)
      reads this`ystar, this`vertex, this`pqNext, this`coord
    {
      QueuedIn(Keys(), n, b)
    }

    /** The sort key (ystar, vertex.x) of a queued half-edge. */
    ghost function KeyY(n: int): real
      requires 0 <= n < |ystar|
      reads this`ystar
    {
      ystar[n]
    }

    ghost function KeyX(n: int): real
      requires 0 <= n < |vertex| && 0 <= vertex[n] < |coord|
      reads this`vertex, this`coord
    {
      coord[vertex[n]].x
    }

    /** One bucket: its chain through PQnext, its distinct members and its ascending keys. */
    ghost predicate BucketOk(b: int, s: seq<int>, head: int)
      reads this`ystar, this`vertex, this`pqNext, this`coord
    {
      BucketShape(Keys(), b, s, head)
    }

    /**
     * PQhash: every bucket is sound, every bucket below the PQmin cursor is
     * empty, and PQcount is the number of queued half-edges.
     */
    ghost predicate QueueValid()
      reads this`pqHash, pqHash, this`pqMin, this`pqCount, this`buckets,
            this`ystar, this`vertex, this`pqNext, this`coord
    {
      && pqHash.Length == 4 * slab
      && QueueShape(Keys(), buckets, pqHash[..], pqMin, pqCount)
    }

    /** Every queued half-edge is on the beach line. */
    ghost predicate QueueOnBeach()
      reads this`buckets, this`beach
    {
      MembersOn(buckets, beach)
    }

    /** Queued candidate vertices are sites in use, so a recycled site slot is never one of them. */
    ghost predicate QueueVerticesLive()
      reads this`buckets, this`vertex, this`coord, this`sfl
    {
      VerticesLive(buckets, vertex, |coord|, sfl.head)
    }

    /**
     * The engine after initializeVoronoi, readsites and geominit, over the
     * input points `input` that qsort arranged in the order `perm`: position i
     * holds input point perm[i], which keeps its input index as its number,
     * and no site is referenced yet. The site free list is empty, the edge
     * arena is empty, and no site has been handed out. The half-edge arena,
     * beach line and queue are placeholders until BeginSweep.
     */
    constructor (input: seq<Point>, perm: seq<int>, bounds: Reader.Bounds)
      requires Reader.IsPermutation(perm, |input|) && SortedBySweep(Reader.Arrange(input, perm))
      requires |input| > 0 ==> Reader.BoxOf(Reader.Arrange(input, perm), bounds)
      ensures nsites == |input| && slab == SqrtNSites(|input|) && deltax == bounds.xmax - bounds.xmin
      ensures xmin == bounds.xmin && xmax == bounds.xmax && ymin == bounds.ymin && ymax == bounds.ymax
      ensures siteidx == 0 && bottomsite == NULL && reg == [] && nedges == 0
      ensures EdgesValid()
      ensures input != [] ==> ReadSites(coord, sitenbr, refcnt, sfl, input, bounds)
      ensures input == [] ==> coord == [] && sitenbr == [] && refcnt == [] && sfl == FreeInit(0)
    {
      slab := SqrtNSites(|input|);
      nsites := |input|;
      xmin, xmax, ymin, ymax := bounds.xmin, bounds.xmax, bounds.ymin, bounds.ymax;
      deltax := bounds.xmax - bounds.xmin;
      coord, sitenbr, refcnt := Reader.Arrange(input, perm), perm, Zeros(|input|);
      sfl := FreeInit(|input|);
      siteidx, bottomsite := 0, NULL;
      reg, ep, efl, nedges := [], [], FreeInit(0), 0;
      elLeft, elRight, elEdge, elPm, elRefcnt := [], [], [], [], [];
      pqNext, vertex, ystar, hfl := [], [], [], FreeInit(0);
      elHash, leftEnd, rightEnd, beach := new int[0], NULL, NULL, [];
      pqHash, pqMin, pqCount, buckets := new int[0], 0, 0, [];
      if input != [] {
        InputSites(input, perm, bounds);
      }
    }

    /**
     * The prologue of voronoi: the bottom site taken with nextone, then
     * PQinitialize and ELinitialize (the source calls PQinitialize first;
     * the two steps touch disjoint state). It leaves an empty queue and a beach line of
     * the two sentinels, and every invariant of the half-edge arena, the beach
     * line and the queue in force; the site and edge arenas it does not touch.
     */
    method BeginSweep()
      requires siteidx == 0
      modifies this`pqHash, this`pqMin, this`pqCount, this`buckets, this`siteidx, this`bottomsite,
               this`elLeft, this`elRight, this`elEdge, this`elPm, this`elRefcnt, this`pqNext,
               this`vertex, this`ystar, this`hfl, this`elHash, this`leftEnd, this`rightEnd, this`beach
      ensures ArenaValid() && BeachValid() && HashValid() && HashOnBeach()
      ensures QueueValid() && QueueOnBeach() && QueueVerticesLive() && elHash != pqHash
      ensures bottomsite == (if nsites > 0 then 0 else NULL) && siteidx == (if nsites > 0 then 1 else 0)
      ensures beach == [leftEnd, rightEnd] && pqCount == 0 && SentinelsIdle()
    {
      bottomsite := NextOne();
      StartStructures();
    }

    /** PQinitialize, then ELinitialize over the empty queue it left. */
    method StartStructures()
      modifies this`pqHash, this`pqMin, this`pqCount, this`buckets,
               this`elLeft, this`elRight, this`elEdge, this`elPm, this`elRefcnt, this`pqNext,
               this`vertex, this`ystar, this`hfl, this`elHash, this`leftEnd, this`rightEnd, this`beach
      ensures ArenaValid() && BeachValid() && HashValid() && HashOnBeach()
      ensures QueueValid() && QueueOnBeach() && QueueVerticesLive() && elHash != pqHash
      ensures beach == [leftEnd, rightEnd] && pqCount == 0 && SentinelsIdle()
    {
      PQInitialize();
      StartBeach();
    }

    /** ELinitialize over the empty queue PQinitialize left, which stays empty and sound. */
    method StartBeach()
      requires pqHash.Length == 4 * slab && |buckets| == 4 * slab && pqMin == 0 && pqCount == 0
      requires forall b :: 0 <= b < |buckets| ==> buckets[b] == [] && pqHash[b] == NULL
      modifies this`elLeft, this`elRight, this`elEdge, this`elPm, this`elRefcnt, this`pqNext,
               this`vertex, this`ystar, this`hfl, this`elHash, this`leftEnd, this`rightEnd, this`beach
      ensures ArenaValid() && BeachValid() && HashValid() && HashOnBeach()
      ensures QueueValid() && QueueOnBeach() && QueueVerticesLive() && elHash != pqHash
      ensures beach == [leftEnd, rightEnd] && SentinelsIdle()
    {
      ELInitialize();
      EmptyQueueValid();
    }

    // ---------------------------------------------------------------- sites

    /** nextone: hand out the next sorted input site, or NULL once all are used. */
    method NextOne() returns (s: int)
      requires siteidx <= nsites
      modifies this`siteidx
      ensures old(siteidx) < nsites ==> s == old(siteidx) && siteidx == old(siteidx) + 1
      ensures old(siteidx) >= nsites ==> s == NULL && siteidx == old(siteidx)
    {
      if siteidx < nsites {
        s := siteidx;
        siteidx := siteidx + 1;
      } else {
        s := NULL;
      }
    }

    /** ref: one more use of site `v`. */
    method Ref(v: int)
      requires SitesValid() && Live(v)
      modifies this`refcnt
      ensures SitesValid()
      ensures refcnt == Bumped(old(refcnt), v, 1)
    {
      refcnt := refcnt[v := refcnt[v] + 1];
    }

    /** deref: one use fewer; the site goes back to the free list exactly when its count reaches zero. */
    method Deref(v: int)
      requires SitesValid() && QueueVerticesLive() && 0 <= v < |coord|
      requires refcnt[v] == 1 ==> NotQueuedVertex(v)
      modifies this`refcnt, this`sfl
      ensures SitesValid() && QueueVerticesLive()
      ensures refcnt == Bumped(old(refcnt), v, -1)
      ensures sfl == Released(old(sfl), v, refcnt[v])
      ensures v in sfl.head <==> v in old(sfl.head) || old(refcnt)[v] == 1
      ensures buckets == old(buckets) && beach == old(beach) && vertex == old(vertex)
    {
      refcnt := refcnt[v := refcnt[v] - 1];
      if refcnt[v] == 0 {
        MakeFreeWellFormed(sfl, v);
        sfl := MakeFree(sfl, v);
      }
    }

    /**
     * getfree on the site free list: a slot that was free, or a fresh one
     * when the list had to be refilled, now in use with count 0.
     */
    method AllocSite() returns (v: int)
      requires SitesValid()
      modifies this`coord, this`sitenbr, this`refcnt, this`sfl
      ensures SitesValid()
      ensures Live(v) && refcnt[v] == 0
      ensures sfl == Taken(old(sfl), slab).0 && v == Taken(old(sfl), slab).1
      ensures v in old(sfl.head) || old(|coord|) <= v
      ensures old(|coord|) <= |coord| && coord[..old(|coord|)] == old(coord)
      ensures forall s :: s in sfl.head ==> s in old(sfl.head) || old(|coord|) <= s
      ensures forall s :: 0 <= s < old(|coord|) && s != v ==>
        refcnt[s] == old(refcnt[s]) && (s in sfl.head <==> s in old(sfl.head))
    {
      var fl, t := GetFree(sfl, slab);
      if fl.arena > |coord| {
        coord := Pad(coord, fl.arena, Point(0.0, 0.0));
        sitenbr := Pad(sitenbr, fl.arena, 0);
        refcnt := Pad(refcnt, fl.arena, 0);
      }
      sfl := fl;
      v := t;
      refcnt := refcnt[v := 0];
    }

    /**
     * The site arena may grow and one slot `v` that was free or fresh may
     * change: the edges, the half-edges and the queue do not refer to it.
     */
    twostate lemma SitesGrowFrame(v: int)
      requires old(EdgesValid()) && old(ArenaValid()) && old(QueueValid()) && old(QueueVerticesLive())
      requires old(|coord|) <= |coord|
      requires forall x :: 0 <= x < old(|coord|) && x != v ==> coord[x] == old(coord[x])
      requires v in old(sfl.head) || old(|coord|) <= v
      requires forall s :: s in sfl.head ==> s in old(sfl.head) || old(|coord|) <= s
      requires reg == old(reg) && ep == old(ep) && efl == old(efl) && hfl == old(hfl)
      requires elLeft == old(elLeft) && elRight == old(elRight) && elEdge == old(elEdge) && elPm == old(elPm)
      requires elRefcnt == old(elRefcnt) && pqNext == old(pqNext) && vertex == old(vertex) && ystar == old(ystar)
      requires pqHash == old(pqHash) && unchanged(pqHash) && pqMin == old(pqMin) && pqCount == old(pqCount)
      requires buckets == old(buckets) && beach == old(beach)
      ensures EdgesValid() && ArenaValid() && QueueValid() && QueueVerticesLive()
    {
      assert forall b, i :: 0 <= b < |buckets| && 0 <= i < |buckets[b]| && 0 <= buckets[b][i] < |vertex| ==>
        vertex[buckets[b][i]] != v;
      QueueShapeFrame(old(Keys()), Keys(), buckets, pqHash[..], pqMin, pqCount);
    }

    /**
     * The site allocation at the end of intersect: a site slot from the free
     * list (refilled if empty), with count 0, at `p`. It is numbered later.
     */
    method NewVertex(p: Point) returns (v: int)
      requires SitesValid() && EdgesValid() && ArenaValid() && QueueValid() && QueueVerticesLive()
      modifies this`coord, this`sitenbr, this`refcnt, this`sfl
      ensures SitesValid() && EdgesValid() && ArenaValid() && QueueValid() && QueueVerticesLive()
      ensures Live(v) && coord[v] == p && refcnt[v] == 0
      ensures sfl == Taken(old(sfl), slab).0 && v == Taken(old(sfl), slab).1
      ensures v in old(sfl.head) || old(|coord|) <= v
      ensures old(|coord|) <= |coord|
      ensures forall s :: 0 <= s < old(|coord|) && s != v ==>
        coord[s] == old(coord[s]) && refcnt[s] == old(refcnt[s]) && (s in sfl.head <==> s in old(sfl.head))
    {
      v := AllocSite();
      coord := coord[v := p];
      SitesGrowFrame(v);
    }

    // ---------------------------------------------------------------- edges

    /**
     * The bookkeeping of bisect: a fresh edge between s1 and s2 holding a
     * reference to each, with both endpoints unset. The line coefficients are
     * floating-point geometry and are not modelled.
     */
    method Bisect(s1: int, s2: int) returns (e: int)
      requires SitesValid() && EdgesValid() && ArenaValid() && Live(s1) && Live(s2)
      modifies this`reg, this`ep, this`efl, this`nedges, this`refcnt
      ensures SitesValid() && EdgesValid() && ArenaValid()
      ensures 0 <= e < |reg| && e !in efl.head && (e in old(efl.head) || old(|reg|) <= e)
      ensures efl == Taken(old(efl), slab).0 && e == Taken(old(efl), slab).1
      ensures reg[e] == Sides(s1, s2) && ep[e] == Sides(NULL, NULL)
      ensures old(|reg|) <= |reg|
      ensures forall f :: 0 <= f < old(|reg|) && f != e ==>
        reg[f] == old(reg[f]) && ep[f] == old(ep[f]) && (f in efl.head <==> f in old(efl.head))
      ensures refcnt == Bumped(Bumped(old(refcnt), s1, 1), s2, 1)
      ensures nedges == old(nedges) + 1
    {
      e := AllocEdge(s1, s2);
      Ref(s1);
      Ref(s2);
      nedges := nedges + 1;
      ArenaEdgesGrow();
    }

    /** getfree on the edge free list, with the regions set and both endpoints unset. */
    method AllocEdge(s1: int, s2: int) returns (e: int)
      requires EdgesValid() && 0 <= s1 < |coord| && 0 <= s2 < |coord|
      modifies this`reg, this`ep, this`efl
      ensures EdgesValid()
      ensures 0 <= e < |reg| && e !in efl.head && (e in old(efl.head) || old(|reg|) <= e)
      ensures efl == Taken(old(efl), slab).0 && e == Taken(old(efl), slab).1
      ensures reg[e] == Sides(s1, s2) && ep[e] == Sides(NULL, NULL)
      ensures old(|reg|) <= |reg|
      ensures forall f :: 0 <= f < old(|reg|) && f != e ==>
        reg[f] == old(reg[f]) && ep[f] == old(ep[f]) && (f in efl.head <==> f in old(efl.head))
    {
      var fl, t := GetFree(efl, slab);
      if fl.arena > |reg| {
        reg := Pad(reg, fl.arena, Sides(NULL, NULL));
        ep := Pad(ep, fl.arena, Sides(NULL, NULL));
      }
      efl := fl;
      e := t;
      reg := reg[e := Sides(s1, s2)];
      ep := ep[e := Sides(NULL, NULL)];
    }

    /** Growing the edge arena keeps every half-edge's edge reference sound. */
    twostate lemma ArenaEdgesGrow()
      requires old(ArenaValid()) && old(|reg|) <= |reg| && coord == old(coord) && hfl == old(hfl)
      requires elLeft == old(elLeft) && elRight == old(elRight) && elEdge == old(elEdge) && elPm == old(elPm)
      requires elRefcnt == old(elRefcnt) && pqNext == old(pqNext) && vertex == old(vertex) && ystar == old(ystar)
      ensures ArenaValid()
    {
    }

    /**
     * endpoint: set end `lr` of edge `e` to `s` and take a reference to `s`.
     * When the other end was already set the edge is complete and is closed.
     */
    method Endpoint(e: int, lr: int, s: int)
      requires SitesValid() && EdgesValid() && QueueVerticesLive()
      requires 0 <= e < |reg| && e !in efl.head && (lr == LE || lr == RE) && Live(s)
      requires ep[e].Get(RE - lr) != NULL ==> NotQueuedVertex(reg[e].le) && NotQueuedVertex(reg[e].re)
      modifies this`ep, this`efl, this`refcnt, this`sfl
      ensures SitesValid() && EdgesValid() && QueueVerticesLive()
      ensures ep == old(ep)[e := old(ep[e]).Set(lr, s)]
      ensures old(ep[e]).Get(RE - lr) == NULL ==>
        refcnt == Bumped(old(refcnt), s, 1) && efl == old(efl) && sfl == old(sfl)
      ensures old(ep[e]).Get(RE - lr) != NULL ==>
        var le, re := old(reg[e]).le, old(reg[e]).re;
        var r1 := Bumped(old(refcnt), s, 1);
        var r2 := Bumped(r1, le, -1);
        && refcnt == Bumped(r2, re, -1)
        && efl == MakeFree(old(efl), e)
        && sfl == Released(Released(old(sfl), le, r2[le]), re, refcnt[re])
    {
      ep := ep[e := ep[e].Set(lr, s)];
      Ref(s);
      if ep[e].Get(RE - lr) == NULL {
        return;
      }
      CloseEdge(e);
    }

    /** The completion step of endpoint: release both generator sites and free the edge. */
    method CloseEdge(e: int)
      requires SitesValid() && EdgesValid() && QueueVerticesLive()
      requires 0 <= e < |reg| && e !in efl.head
      requires NotQueuedVertex(reg[e].le) && NotQueuedVertex(reg[e].re)
      modifies this`efl, this`refcnt, this`sfl
      ensures SitesValid() && EdgesValid() && QueueVerticesLive()
      ensures var le, re := reg[e].le, reg[e].re;
        var r1 := Bumped(old(refcnt), le, -1);
        && refcnt == Bumped(r1, re, -1)
        && sfl == Released(Released(old(sfl), le, r1[le]), re, refcnt[re])
      ensures efl == MakeFree(old(efl), e) && e in efl.head
    {
      Deref(reg[e].le);
      Deref(reg[e].re);
      MakeFreeWellFormed(efl, e);
      efl := MakeFree(efl, e);
    }

    // ---------------------------------------------------------------- regions

    /** A half-edge whose regions can be read: a slot that is not tombstoned, with a sound edge. */
    ghost predicate RegionsDefined(he: int)
      reads this`elEdge, this`elPm, this`reg
    {
      0 <= he < |elEdge| && he < |elPm| && (elEdge[he] == NULL || 0 <= elEdge[he] < |reg|)
    }

    /**
     * leftreg: the site on the left of a half-edge, the region of its edge on
     * the half-edge's own side; the bottom site for a sentinel.
     */
    function LeftReg(he: int): (s: int)
      requires RegionsDefined(he)
      reads this`elEdge, this`elPm, this`reg, this`bottomsite
      ensures elEdge[he] == NULL ==> s == bottomsite
      ensures elEdge[he] != NULL ==> s == reg[elEdge[he]].Get(elPm[he])
    {
      if elEdge[he] == NULL then bottomsite
      else if elPm[he] == LE then reg[elEdge[he]].le else reg[elEdge[he]].re
    }

    /**
     * rightreg: the site on the right of a half-edge; the bottom site for a
     * sentinel. Otherwise it and leftreg are the two sites of the edge, and
     * they differ whenever those sites do.
     */
    function RightReg(he: int): (s: int)
      requires RegionsDefined(he)
      reads this`elEdge, this`elPm, this`reg, this`bottomsite
      ensures elEdge[he] == NULL ==> s == bottomsite
      ensures elEdge[he] != NULL ==> {LeftReg(he), s} == {reg[elEdge[he]].le, reg[elEdge[he]].re}
      ensures elEdge[he] != NULL && reg[elEdge[he]].le != reg[elEdge[he]].re ==> s != LeftReg(he)
    {
      if elEdge[he] == NULL then bottomsite
      else if elPm[he] == LE then reg[elEdge[he]].re else reg[elEdge[he]].le
    }

    /**
     * The two half-edges of one bisector see its sites from opposite sides:
     * what is left of one is right of the other, and together they name both
     * generator sites.
     */
    lemma TwinRegions(h1: int, h2: int)
      requires ArenaValid() && RegionsDefined(h1) && RegionsDefined(h2)
      requires elEdge[h1] == elEdge[h2] && 0 <= elEdge[h1] && elPm[h1] != elPm[h2]
      ensures LeftReg(h1) == RightReg(h2) && RightReg(h1) == LeftReg(h2)
      ensures {LeftReg(h1), RightReg(h1)} == {reg[elEdge[h1]].le, reg[elEdge[h1]].re}
    {
    }

    // ---------------------------------------------------------------- beach line

    /**
     * getfree on the half-edge free list: a slot that was free, or a fresh one
     * when the list had to be refilled; every other slot keeps its fields.
     */
    method AllocHalfEdge() returns (he: int)
      requires ArenaValid() && RefcntSized()
      modifies this`elLeft, this`elRight, this`elEdge, this`elPm, this`elRefcnt, this`pqNext,
               this`vertex, this`ystar, this`hfl
      ensures ArenaValid() && RefcntSized()
      ensures 0 <= he < hfl.arena && he !in hfl.head && (he in old(hfl.head) || old(hfl.arena) <= he)
      ensures hfl == Taken(old(hfl), slab).0 && he == Taken(old(hfl), slab).1
      ensures old(hfl.arena) <= hfl.arena
      ensures forall h :: old(hfl.arena) <= h < hfl.arena ==> elRefcnt[h] == 0
      ensures forall h :: h in hfl.head ==> h in old(hfl.head) || old(hfl.arena) <= h
      ensures forall h :: 0 <= h < old(hfl.arena) && h != he ==> (h in hfl.head <==> h in old(hfl.head))
      ensures elLeft[..old(hfl.arena)] == old(elLeft) && elRight[..old(hfl.arena)] == old(elRight)
      ensures elEdge[..old(hfl.arena)] == old(elEdge) && elPm[..old(hfl.arena)] == old(elPm)
      ensures elRefcnt[..old(hfl.arena)] == old(elRefcnt) && pqNext[..old(hfl.arena)] == old(pqNext)
      ensures vertex[..old(hfl.arena)] == old(vertex) && ystar[..old(hfl.arena)] == old(ystar)
    {
      var fl, t := GetFree(hfl, slab);
      if fl.arena > hfl.arena {
        GrowHalfEdges(fl.arena);
      }
      hfl := fl;
      he := t;
    }

    /** The arena side of a refill: every half-edge field gets the new slots, the old ones untouched. */
    method GrowHalfEdges(n: nat)
      requires ArenaValid() && RefcntSized() && hfl.arena <= n
      modifies this`elLeft, this`elRight, this`elEdge, this`elPm, this`elRefcnt, this`pqNext,
               this`vertex, this`ystar
      ensures |elLeft| == n && |elRight| == n && |elEdge| == n && |elPm| == n
      ensures |elRefcnt| == n && |pqNext| == n && |vertex| == n && |ystar| == n
      ensures forall h :: 0 <= h < n ==>
        && (elEdge[h] == NULL || elEdge[h] == DELETED || 0 <= elEdge[h] < |reg|)
        && (vertex[h] == NULL || 0 <= vertex[h] < |coord|)
        && (elPm[h] == LE || elPm[h] == RE)
      ensures forall h :: old(hfl.arena) <= h < n ==> elRefcnt[h] == 0
      ensures elLeft[..old(hfl.arena)] == old(elLeft) && elRight[..old(hfl.arena)] == old(elRight)
      ensures elEdge[..old(hfl.arena)] == old(elEdge) && elPm[..old(hfl.arena)] == old(elPm)
      ensures elRefcnt[..old(hfl.arena)] == old(elRefcnt) && pqNext[..old(hfl.arena)] == old(pqNext)
      ensures vertex[..old(hfl.arena)] == old(vertex) && ystar[..old(hfl.arena)] == old(ystar)
    {
      elLeft := Pad(elLeft, n, NULL);
      elRight := Pad(elRight, n, NULL);
      elEdge := Pad(elEdge, n, NULL);
      elPm := Pad(elPm, n, LE);
      elRefcnt := Pad(elRefcnt, n, 0);
      pqNext := Pad(pqNext, n, NULL);
      vertex := Pad(vertex, n, NULL);
      ystar := Pad(ystar, n, 0.0);
    }

    /**
     * HEcreate: a fresh half-edge for edge `e` on side `pm`, off the queue and
     * cached nowhere. Its links are left as they were; ELinsert sets them.
     * The slot is the one getfree hands out, and since it was free or fresh it
     * is on no beach line, in no bucket and in no queue, so every invariant
     * that held before still holds.
     */
    method HECreate(e: int, pm: int) returns (he: int)
      requires ArenaValid() && RefcntSized() && (e == NULL || 0 <= e < |reg|) && (pm == LE || pm == RE)
      modifies this`elLeft, this`elRight, this`elEdge, this`elPm, this`elRefcnt, this`pqNext,
               this`vertex, this`ystar, this`hfl
      ensures ArenaValid() && RefcntSized()
      ensures 0 <= he < hfl.arena && he !in hfl.head && (he in old(hfl.head) || old(hfl.arena) <= he)
      ensures hfl == Taken(old(hfl), slab).0 && he == Taken(old(hfl), slab).1
      ensures elEdge[he] == e && elPm[he] == pm && pqNext[he] == NULL && vertex[he] == NULL && elRefcnt[he] == 0
      ensures old(hfl.arena) <= hfl.arena
      ensures forall h :: old(hfl.arena) <= h < hfl.arena ==> elRefcnt[h] == 0
      ensures forall h :: h in hfl.head ==> h in old(hfl.head) || old(hfl.arena) <= h
      ensures forall h :: 0 <= h < old(hfl.arena) && h != he ==>
        && elLeft[h] == old(elLeft[h]) && elRight[h] == old(elRight[h])
        && elEdge[h] == old(elEdge[h]) && elPm[h] == old(elPm[h]) && elRefcnt[h] == old(elRefcnt[h])
        && pqNext[h] == old(pqNext[h]) && vertex[h] == old(vertex[h]) && ystar[h] == old(ystar[h])
        && (h in hfl.head <==> h in old(hfl.head))
      ensures old(BeachValid()) ==> BeachValid() && he !in beach
      ensures old(HashValid() && HashOnBeach()) ==> HashValid() && HashOnBeach()
      ensures old(BeachValid() && QueueValid() && QueueOnBeach() && QueueVerticesLive()) ==>
        QueueValid() && QueueOnBeach() && QueueVerticesLive()
    {
      he := MakeHalfEdge(e, pm);
      HECreateFrames(he);
    }

    /** The writes of HEcreate: getfree, then the edge, side, PQnext, vertex and count. */
    method MakeHalfEdge(e: int, pm: int) returns (he: int)
      requires ArenaValid() && RefcntSized() && (e == NULL || 0 <= e < |reg|) && (pm == LE || pm == RE)
      modifies this`elLeft, this`elRight, this`elEdge, this`elPm, this`elRefcnt, this`pqNext,
               this`vertex, this`ystar, this`hfl
      ensures ArenaValid() && RefcntSized()
      ensures 0 <= he < hfl.arena && he !in hfl.head && (he in old(hfl.head) || old(hfl.arena) <= he)
      ensures hfl == Taken(old(hfl), slab).0 && he == Taken(old(hfl), slab).1
      ensures elEdge[he] == e && elPm[he] == pm && pqNext[he] == NULL && vertex[he] == NULL && elRefcnt[he] == 0
      ensures old(hfl.arena) <= hfl.arena
      ensures forall h :: old(hfl.arena) <= h < hfl.arena ==> elRefcnt[h] == 0
      ensures forall h :: h in hfl.head ==> h in old(hfl.head) || old(hfl.arena) <= h
      ensures forall h :: 0 <= h < old(hfl.arena) && h != he ==>
        && elLeft[h] == old(elLeft[h]) && elRight[h] == old(elRight[h])
        && elEdge[h] == old(elEdge[h]) && elPm[h] == old(elPm[h]) && elRefcnt[h] == old(elRefcnt[h])
        && pqNext[h] == old(pqNext[h]) && vertex[h] == old(vertex[h]) && ystar[h] == old(ystar[h])
        && (h in hfl.head <==> h in old(hfl.head))
    {
      he := AllocHalfEdge();
      elEdge := elEdge[he := e];
      elPm := elPm[he := pm];
      pqNext := pqNext[he := NULL];
      vertex := vertex[he := NULL];
      elRefcnt := elRefcnt[he := 0];
    }

    /** What HEcreate's writes leave of the beach line, hash and queue invariants. */
    twostate lemma HECreateFrames(he: int)
      requires old(ArenaValid()) && old(RefcntSized()) && ArenaValid() && RefcntSized()
      requires 0 <= he < hfl.arena && he !in hfl.head && (he in old(hfl.head) || old(hfl.arena) <= he)
      requires pqNext[he] == NULL && vertex[he] == NULL && elRefcnt[he] == 0
      requires old(hfl.arena) <= hfl.arena
      requires forall h :: old(hfl.arena) <= h < hfl.arena ==> elRefcnt[h] == 0
      requires forall h :: h in hfl.head ==> h in old(hfl.head) || old(hfl.arena) <= h
      requires forall h :: 0 <= h < old(hfl.arena) && h != he ==>
        && elLeft[h] == old(elLeft[h]) && elRight[h] == old(elRight[h])
        && elEdge[h] == old(elEdge[h]) && elPm[h] == old(elPm[h]) && elRefcnt[h] == old(elRefcnt[h])
        && pqNext[h] == old(pqNext[h]) && vertex[h] == old(vertex[h]) && ystar[h] == old(ystar[h])
        && (h in hfl.head <==> h in old(hfl.head))
      requires beach == old(beach) && leftEnd == old(leftEnd) && rightEnd == old(rightEnd)
      requires elHash == old(elHash) && unchanged(elHash) && coord == old(coord) && sfl == old(sfl)
      requires buckets == old(buckets) && pqHash == old(pqHash) && unchanged(pqHash)
      requires pqMin == old(pqMin) && pqCount == old(pqCount)
      ensures old(BeachValid()) ==> BeachValid() && he !in beach
      ensures old(HashValid() && HashOnBeach()) ==> HashValid() && HashOnBeach()
      ensures old(BeachValid() && QueueValid() && QueueOnBeach() && QueueVerticesLive()) ==>
        QueueValid() && QueueOnBeach() && QueueVerticesLive()
    {
      if old(BeachValid()) {
        HECreateBeachFrame(he);
      }
      if old(HashValid() && HashOnBeach()) {
        HECreateHashFrame(he);
      }
      if old(BeachValid() && QueueValid() && QueueOnBeach() && QueueVerticesLive()) {
        HECreateBeachFrame(he);
        HECreateQueueFrame(he);
      }
    }

    /** A half-edge handed out by HEcreate was free or fresh, so it is not on the beach line. */
    twostate lemma HECreateBeachFrame(he: int)
      requires old(BeachValid()) && old(|elLeft|) <= |elLeft| && old(|elRight|) <= |elRight| && old(|elEdge|) <= |elEdge|
      requires old(|elLeft|) == old(|elRight|) == old(|elEdge|)
      requires he in old(hfl.head) || old(|elLeft|) <= he
      requires forall h :: h in hfl.head ==> h in old(hfl.head) || old(|elLeft|) <= h
      requires forall h :: 0 <= h < old(|elLeft|) && h != he ==>
        elLeft[h] == old(elLeft[h]) && elRight[h] == old(elRight[h]) && elEdge[h] == old(elEdge[h])
      requires beach == old(beach) && leftEnd == old(leftEnd) && rightEnd == old(rightEnd)
      ensures BeachValid() && he !in beach
    {
    }

    /** ... nor in the hash, where its count of zero is right. */
    twostate lemma HECreateHashFrame(he: int)
      requires old(HashValid()) && old(HashOnBeach()) && old(|elRefcnt|) <= |elRefcnt|
      requires old(|elEdge|) == old(|elRefcnt|) && |elEdge| == |elRefcnt|
      requires he in old(hfl.head) || old(|elRefcnt|) <= he
      requires 0 <= he < |elRefcnt| && elRefcnt[he] == 0
      requires forall h :: h in hfl.head ==> h in old(hfl.head) || old(|elRefcnt|) <= h
      requires forall h :: 0 <= h < old(|elRefcnt|) && h != he ==>
        elEdge[h] == old(elEdge[h]) && elRefcnt[h] == old(elRefcnt[h])
      requires forall h :: old(|elRefcnt|) <= h < |elRefcnt| && h != he ==> elRefcnt[h] == 0
      requires beach == old(beach) && leftEnd == old(leftEnd) && rightEnd == old(rightEnd)
      requires elHash == old(elHash) && unchanged(elHash) && RefcntSized()
      ensures HashValid() && HashOnBeach()
    {
      var t := elHash[..];
      assert t == old(elHash[..]);
      assert forall b :: 0 <= b < |t| ==> t[b] == NULL || (0 <= t[b] < old(|elRefcnt|) && t[b] !in old(hfl.head));
      assert forall b :: 0 <= b < |t| ==> t[b] != he;
      assert forall i :: 1 <= i < |t| - 1 ==> t[1..|t| - 1][i - 1] == t[i];
    }

    /** ... nor in the queue. */
    twostate lemma HECreateQueueFrame(he: int)
      requires old(QueueValid()) && old(QueueVerticesLive()) && old(QueueOnBeach()) && old(|ystar|) <= |ystar|
      requires |pqNext| == |vertex| == |ystar| && old(|pqNext|) == old(|vertex|) == old(|ystar|)
      requires he !in old(beach)
      requires forall h :: 0 <= h < old(|ystar|) && h != he ==>
        pqNext[h] == old(pqNext[h]) && vertex[h] == old(vertex[h]) && ystar[h] == old(ystar[h])
      requires coord == old(coord) && sfl == old(sfl) && buckets == old(buckets)
      requires pqHash == old(pqHash) && unchanged(pqHash) && pqMin == old(pqMin) && pqCount == old(pqCount)
      ensures QueueValid() && QueueVerticesLive()
    {
      AllQueued(old(Keys()), buckets, pqHash[..], pqMin, pqCount);
      assert forall b, i :: 0 <= b < |buckets| && 0 <= i < |buckets[b]| ==> buckets[b][i] != he;
      QueueShapeFrame(old(Keys()), Keys(), buckets, pqHash[..], pqMin, pqCount);
    }

    /**
     * ELinitialize: a fresh half-edge free list, an ELhash of 2 * sqrt_nsites
     * empty buckets, and a beach line holding only the two sentinels, linked
     * to each other and cached in the two end buckets. It runs once, right
     * after PQinitialize, so the queue it leaves alone is empty.
     */
    method ELInitialize()
      modifies this`elLeft, this`elRight, this`elEdge, this`elPm, this`elRefcnt, this`pqNext,
               this`vertex, this`ystar, this`hfl, this`elHash, this`leftEnd, this`rightEnd, this`beach
      ensures fresh(elHash) && elHash.Length == 2 * slab
      ensures ArenaValid() && BeachValid() && HashValid() && HashOnBeach()
      ensures leftEnd != rightEnd && beach == [leftEnd, rightEnd] && SentinelsIdle()
      ensures elRight[leftEnd] == rightEnd && elLeft[rightEnd] == leftEnd
      ensures elHash[0] == leftEnd && elHash[elHash.Length - 1] == rightEnd
      ensures forall b :: 0 < b < elHash.Length - 1 ==> elHash[b] == NULL
    {
      var l, r := Sentinels();
      InstallSentinels(l, r);
    }

    /** ELinitialize once the sentinels exist: link them and build the ELhash holding them. */
    method InstallSentinels(l: int, r: int)
      requires ArenaValid() && RefcntSized() && 0 <= l < hfl.arena && 0 <= r < hfl.arena && l != r
      requires l !in hfl.head && r !in hfl.head && elEdge[l] == NULL && elEdge[r] == NULL
      requires forall h :: 0 <= h < hfl.arena ==> elRefcnt[h] == 0
      modifies this`elLeft, this`elRight, this`leftEnd, this`rightEnd, this`beach, this`elHash
      ensures fresh(elHash) && elHash.Length == 2 * slab
      ensures ArenaValid() && BeachValid() && HashValid() && HashOnBeach()
      ensures leftEnd == l && rightEnd == r && beach == [l, r]
      ensures elRight[l] == r && elLeft[r] == l
      ensures elHash[0] == l && elHash[elHash.Length - 1] == r
      ensures forall b :: 0 < b < elHash.Length - 1 ==> elHash[b] == NULL
    {
      LinkSentinels(l, r);
      var table := EndsTable(2 * slab, l, r);
      InstallHash(table);
    }

    /** The links of ELinitialize: the sentinels point at each other and make up the beach line. */
    method LinkSentinels(l: int, r: int)
      requires ArenaValid() && 0 <= l < hfl.arena && 0 <= r < hfl.arena && l != r
      requires l !in hfl.head && r !in hfl.head && elEdge[l] == NULL && elEdge[r] == NULL
      modifies this`elLeft, this`elRight, this`leftEnd, this`rightEnd, this`beach
      ensures ArenaValid() && BeachValid()
      ensures leftEnd == l && rightEnd == r && beach == [l, r]
      ensures elLeft == old(elLeft)[l := NULL][r := l] && elRight == old(elRight)[l := r][r := NULL]
    {
      InitKeepsBeach(l, r, elLeft[l := NULL][r := l], elRight[l := r][r := NULL], elEdge, hfl.head);
      leftEnd, rightEnd := l, r;
      elLeft := elLeft[l := NULL][r := l];
      elRight := elRight[l := r][r := NULL];
      beach := [l, r];
    }

    /** ELinitialize's hash: `table`, holding only the sentinels, becomes ELhash. */
    method InstallHash(table: array<int>)
      requires ArenaValid() && BeachValid() && RefcntSized()
      requires table.Length == 2 * slab && beach == [leftEnd, rightEnd]
      requires table[0] == leftEnd && table[table.Length - 1] == rightEnd
      requires forall j :: 0 < j < table.Length - 1 ==> table[j] == NULL
      requires 0 <= leftEnd < hfl.arena && 0 <= rightEnd < hfl.arena && leftEnd !in hfl.head && rightEnd !in hfl.head
      requires forall h :: 0 <= h < hfl.arena ==> elRefcnt[h] == 0
      modifies this`elHash
      ensures ArenaValid() && BeachValid() && HashValid() && HashOnBeach() && elHash == table
    {
      InitKeepsHash(table[..], leftEnd, rightEnd, elRefcnt, hfl.head);
      elHash := table;
    }

    /** freeinit on the half-edge free list: the old slab is abandoned and the arena starts empty. */
    method ResetHalfEdges()
      modifies this`elLeft, this`elRight, this`elEdge, this`elPm, this`elRefcnt, this`pqNext,
               this`vertex, this`ystar, this`hfl
      ensures hfl == FreeInit(0) && ArenaValid() && RefcntSized()
    {
      hfl := FreeInit(0);
      elLeft, elRight, elEdge, elPm, elRefcnt := [], [], [], [], [];
      pqNext, vertex, ystar := [], [], [];
    }

    /** The two sentinels of ELinitialize: distinct fresh half-edges with no edge and no count. */
    method Sentinels() returns (l: int, r: int)
      modifies this`elLeft, this`elRight, this`elEdge, this`elPm, this`elRefcnt, this`pqNext,
               this`vertex, this`ystar, this`hfl
      ensures ArenaValid() && RefcntSized()
      ensures 0 <= l < hfl.arena && 0 <= r < hfl.arena && l != r && l !in hfl.head && r !in hfl.head
      ensures elEdge[l] == NULL && elEdge[r] == NULL && vertex[l] == NULL && vertex[r] == NULL
      ensures forall h :: 0 <= h < hfl.arena ==> elRefcnt[h] == 0
    {
      ResetHalfEdges();
      l := HECreate(NULL, LE);
      r := HECreate(NULL, LE);
    }

    /**
     * ELinsert: splice `he` into the beach line immediately right of `lb`;
     * the links of every other half-edge stay as they were.
     */
    method ELInsert(lb: int, he: int)
      requires BeachValid() && HashOnBeach() && QueueOnBeach()
      requires lb in beach && lb != rightEnd
      requires 0 <= he < |elLeft| && he < |elRight| && he < |elEdge| && he !in hfl.head && he !in beach
      requires elEdge[he] != DELETED
      modifies this`elLeft, this`elRight, this`beach
      ensures BeachValid() && HashOnBeach() && QueueOnBeach()
      ensures var k := IndexIn(old(beach), lb);
        && k + 1 < |old(beach)|
        && beach == old(beach)[..k + 1] + [he] + old(beach)[k + 1..]
        && elLeft == old(elLeft)[he := lb][old(beach)[k + 1] := he]
        && elRight == old(elRight)[he := old(beach)[k + 1]][lb := he]
    {
      ghost var k := IndexIn(beach, lb);
      ghost var b0 := beach;
      var r := elRight[lb];
      assert r == b0[k + 1];
      elLeft := elLeft[he := lb];
      elRight := elRight[he := r];
      elLeft := elLeft[r := he];
      elRight := elRight[lb := he];
      beach := b0[..k + 1] + [he] + b0[k + 1..];
      InsertKeepsShape(b0, leftEnd, rightEnd, old(elLeft), old(elRight), elEdge, hfl.head, k, he);
    }

    /**
     * ELdelete: unlink `he` by joining its neighbours and tombstone it. The
     * slot is not freed, since hash buckets may still point at it.
     */
    method ELDelete(he: int)
      requires ArenaValid() && BeachValid() && HashOnBeach() && QueueOnBeach()
      requires he in beach && he != leftEnd && he != rightEnd && Unqueued(he)
      modifies this`elLeft, this`elRight, this`elEdge, this`beach
      ensures ArenaValid() && BeachValid() && HashOnBeach() && QueueOnBeach()
      ensures var k := IndexIn(old(beach), he);
        && 0 < k < |old(beach)| - 1
        && beach == old(beach)[..k] + old(beach)[k + 1..]
        && elRight == old(elRight)[old(beach)[k - 1] := old(beach)[k + 1]]
        && elLeft == old(elLeft)[old(beach)[k + 1] := old(beach)[k - 1]]
      ensures elEdge == old(elEdge)[he := DELETED] && he !in beach && he !in hfl.head
    {
      ghost var k := IndexIn(beach, he);
      ghost var b0 := beach;
      var l, r := elLeft[he], elRight[he];
      assert l == b0[k - 1] && r == b0[k + 1];
      elRight := elRight[l := r];
      elLeft := elLeft[r := l];
      elEdge := elEdge[he := DELETED];
      beach := b0[..k] + b0[k + 1..];
      DeleteKeepsShape(b0, leftEnd, rightEnd, old(elLeft), old(elRight), old(elEdge), hfl.head, k);
      ArenaTombstone(he);
    }

    /** Tombstoning a half-edge keeps the arena well formed. */
    twostate lemma ArenaTombstone(he: int)
      requires old(ArenaValid()) && 0 <= he < old(|elEdge|) && elEdge == old(elEdge)[he := DELETED]
      requires |elLeft| == old(|elLeft|) && |elRight| == old(|elRight|)
      requires elPm == old(elPm) && elRefcnt == old(elRefcnt) && pqNext == old(pqNext)
      requires vertex == old(vertex) && ystar == old(ystar) && hfl == old(hfl) && reg == old(reg) && coord == old(coord)
      ensures ArenaValid()
    {
    }

    /** A half-edge that is not in its own bucket is in no bucket at all. */
    lemma NotQueuedAbsent(he: int)
      requires QueueValid() && 0 <= he < |ystar| && !Queued(he)
      ensures Unqueued(he)
    {
      AllQueued(Keys(), buckets, pqHash[..], pqMin, pqCount);
      assert forall b, i :: 0 <= b < |buckets| && 0 <= i < |buckets[b]| ==> QueuedOk(buckets[b][i], b);
    }

    // ------------------------------------------------------ ELhash and ELleftbnd

    /**
     * ELgethash: the half-edge cached in bucket `b`, or NULL when `b` is out
     * of range or empty. A cached half-edge that ELdelete has tombstoned is
     * pruned: the slot is cleared, its count drops by one, and at zero it is
     * given back to the half-edge free list.
     */
    method ELGetHash(b: int) returns (he: int)
      requires ArenaValid() && BeachValid() && HashValid() && HashOnBeach()
      modifies elHash, this`elRefcnt, this`hfl
      ensures ArenaValid() && BeachValid() && HashValid() && HashOnBeach()
      ensures he == NULL || he in beach
      ensures b == 0 ==> he == leftEnd
      ensures b == elHash.Length - 1 ==> he == rightEnd
      ensures PrunedFrom(old(elHash[..]), elHash[..], elEdge)
      ensures FreedTombstones(old(hfl), hfl, elEdge)
      ensures !(0 <= b < elHash.Length) ==>
        he == NULL && elHash[..] == old(elHash[..]) && elRefcnt == old(elRefcnt) && hfl == old(hfl)
      ensures 0 <= b < elHash.Length && (old(elHash[b]) == NULL || elEdge[old(elHash[b])] != DELETED) ==>
        he == old(elHash[b]) && elHash[..] == old(elHash[..]) && elRefcnt == old(elRefcnt) && hfl == old(hfl)
      ensures 0 <= b < elHash.Length && old(elHash[b]) != NULL && elEdge[old(elHash[b])] == DELETED ==>
        var h := old(elHash[b]);
        && he == NULL && 0 < b < elHash.Length - 1
        && elHash[..] == old(elHash[..])[b := NULL]
        && elRefcnt == Bumped(old(elRefcnt), h, -1)
        && hfl == Released(old(hfl), h, elRefcnt[h])
    {
      if b < 0 || b >= elHash.Length {
        return NULL;
      }
      he := elHash[b];
      if he != NULL && elEdge[he] == DELETED {
        PruneAt(b);
        he := NULL;
      }
    }

    /**
     * ELgethash's pruning of bucket `b`, whose half-edge has been deleted
     * from the beach line: the bucket is cleared, the half-edge loses one
     * count and goes back to the free list when that count reaches 0.
     */
    method PruneAt(b: int)
      requires ArenaValid() && BeachValid() && HashValid() && HashOnBeach()
      requires 0 <= b < elHash.Length && elHash[b] != NULL && 0 <= elHash[b] < |elEdge| && elEdge[elHash[b]] == DELETED
      modifies elHash, this`elRefcnt, this`hfl
      ensures ArenaValid() && BeachValid() && HashValid() && HashOnBeach()
      ensures var h := old(elHash[b]);
        && 0 < b < elHash.Length - 1
        && elHash[..] == old(elHash[..])[b := NULL]
        && elRefcnt == Bumped(old(elRefcnt), h, -1)
        && hfl == Released(old(hfl), h, elRefcnt[h])
    {
      var he := elHash[b];
      assert 0 < b < elHash.Length - 1 && he != leftEnd && he != rightEnd && he !in beach;
      ClearSlot(b);
      if elRefcnt[he] == 0 {
        FreeHalfEdge(he);
      }
    }

    /** An inner bucket `b` is cleared and the half-edge it held loses one count. */
    method ClearSlot(b: int)
      requires HashValid() && HashOnBeach() && 0 < b < elHash.Length - 1 && elHash[b] != NULL
      modifies elHash, this`elRefcnt
      ensures HashValid() && HashOnBeach()
      ensures 0 <= old(elHash[b]) < |old(elRefcnt)|
      ensures elHash[..] == old(elHash[..])[b := NULL] && elRefcnt == Bumped(old(elRefcnt), old(elHash[b]), -1)
    {
      ghost var t := elHash[..];
      var he := elHash[b];
      ClearKeepsHash(t, leftEnd, rightEnd, elRefcnt, hfl.head, b);
      elHash[b] := NULL;
      elRefcnt := elRefcnt[he := elRefcnt[he] - 1];
      assert elHash[..] == t[b := NULL];
    }

    /** makefree on a half-edge that is off the beach line, in no bucket and not free. */
    method FreeHalfEdge(h: nat)
      requires ArenaValid() && BeachValid() && HashValid()
      requires h < hfl.arena && h !in hfl.head && h !in beach && elRefcnt[h] == 0 && h != leftEnd && h != rightEnd
      modifies this`hfl
      ensures ArenaValid() && BeachValid() && HashValid()
      ensures hfl == MakeFree(old(hfl), h)
    {
      MakeFreeWellFormed(hfl, h);
      FreeKeepsHash(elHash[..], leftEnd, rightEnd, elRefcnt, hfl.head, h);
      hfl := MakeFree(hfl, h);
    }

    /** Free half-edges are cached nowhere, so none holds a count. */
    lemma FreeSlotsUncounted()
      requires ArenaValid() && HashValid()
      ensures forall h :: h in hfl.head ==> h < |elRefcnt| && elRefcnt[h] == 0
    {
      forall h | h in hfl.head
        ensures h < |elRefcnt| && elRefcnt[h] == 0
      {
        FreeUncounted(elHash[..], leftEnd, rightEnd, elRefcnt, hfl.head, h);
      }
    }

    /**
     * ELleftbnd: the half-edge immediately left of the point with x
     * coordinate `px` on the beach line. `rightOf` is the right_of test of
     * that point against a half-edge. The walk starts from the hash bucket
     * of `px` (or the nearest non-empty bucket) and the inner bucket is then
     * re-pointed at the answer, moving one count from the old entry to it.
     */
    method ELLeftBnd(px: real, rightOf: int -> bool) returns (he: int)
      requires ArenaValid() && BeachValid() && HashValid() && HashOnBeach()
      modifies elHash, this`elRefcnt, this`hfl
      ensures ArenaValid() && BeachValid() && HashValid() && HashOnBeach()
      ensures he in beach && LeftBoundary(beach, rightOf, IndexIn(beach, he))
      ensures he != rightEnd && (he == leftEnd || rightOf(he))
      ensures elRight[he] == rightEnd || !rightOf(elRight[he])
      ensures var bucket := ELBucketIndex(px, xmin, deltax, elHash.Length);
        && (0 < bucket < elHash.Length - 1 ==> elHash[bucket] == he)
        && forall c :: 0 <= c < elHash.Length && c != bucket ==> KeptOrPruned(old(elHash[c]), elHash[c], elEdge)
      ensures FreedTombstones(old(hfl), hfl, elEdge)
      ensures forall h :: h in hfl.head ==> h < |elRefcnt| && elRefcnt[h] == 0
    {
      var bucket := ELBucketIndex(px, xmin, deltax, elHash.Length);
      he := ELLeftBndFrom(bucket, rightOf);
    }

    /** ELleftbnd once the hash bucket of the point is known. */
    method ELLeftBndFrom(bucket: int, rightOf: int -> bool) returns (he: int)
      requires ArenaValid() && BeachValid() && HashValid() && HashOnBeach()
      requires 0 <= bucket < elHash.Length
      modifies elHash, this`elRefcnt, this`hfl
      ensures ArenaValid() && BeachValid() && HashValid() && HashOnBeach()
      ensures he in beach && LeftBoundary(beach, rightOf, IndexIn(beach, he))
      ensures he != rightEnd && (he == leftEnd || rightOf(he))
      ensures elRight[he] == rightEnd || !rightOf(elRight[he])
      ensures 0 < bucket < elHash.Length - 1 ==> elHash[bucket] == he
      ensures forall c :: 0 <= c < elHash.Length && c != bucket ==> KeptOrPruned(old(elHash[c]), elHash[c], elEdge)
      ensures FreedTombstones(old(hfl), hfl, elEdge)
      ensures forall h :: h in hfl.head ==> h < |elRefcnt| && elRefcnt[h] == 0
    {
      he := Locate(bucket, rightOf);
      if 0 < bucket < elHash.Length - 1 {
        ghost var beach0, left0, right0, edge0, free0 := beach, elLeft, elRight, elEdge, hfl.head;
        CacheAt(bucket, he);
        assert beach == beach0 && elLeft == left0 && elRight == right0 && elEdge == edge0 && hfl.head == free0;
      }
      FreeSlotsUncounted();
    }

    /** ELleftbnd up to its hash update: the start found through the table, then the walk. */
    method Locate(bucket: int, rightOf: int -> bool) returns (he: int)
      requires ArenaValid() && BeachValid() && HashValid() && HashOnBeach()
      requires 0 <= bucket < elHash.Length
      modifies elHash, this`elRefcnt, this`hfl
      ensures ArenaValid() && BeachValid() && HashValid() && HashOnBeach()
      ensures he in beach && LeftBoundary(beach, rightOf, IndexIn(beach, he))
      ensures 0 <= he < |elEdge| && he !in hfl.head
      ensures he != rightEnd && (he == leftEnd || rightOf(he))
      ensures elRight[he] == rightEnd || !rightOf(elRight[he])
      ensures PrunedFrom(old(elHash[..]), elHash[..], elEdge)
      ensures FreedTombstones(old(hfl), hfl, elEdge)
    {
      he := FindStart(bucket);
      he := WalkToLeftBnd(he, rightOf);
    }

    /** ELleftbnd's starting point: the half-edge cached in `bucket`, else the nearest one found by probing. */
    method FindStart(bucket: int) returns (he: int)
      requires ArenaValid() && BeachValid() && HashValid() && HashOnBeach()
      requires 0 <= bucket < elHash.Length
      modifies elHash, this`elRefcnt, this`hfl
      ensures ArenaValid() && BeachValid() && HashValid() && HashOnBeach()
      ensures he in beach
      ensures PrunedFrom(old(elHash[..]), elHash[..], elEdge)
      ensures FreedTombstones(old(hfl), hfl, elEdge)
    {
      he := ELGetHash(bucket);
      if he == NULL {
        ghost var t1, fl1 := elHash[..], hfl;
        he := ProbeOutward(bucket);
        PrunedTwice(old(elHash[..]), t1, elHash[..], elEdge);
        FreedTwice(old(hfl), fl1, hfl, elEdge);
      }
    }

    /**
     * ELleftbnd's hash update of an inner bucket `b`: it now caches `he`, one
     * count moving from the half-edge it held to `he`.
     */
    method CacheAt(b: int, he: int)
      requires HashValid() && HashOnBeach()
      requires 0 < b < elHash.Length - 1 && he in beach && 0 <= he < |elRefcnt| && he !in hfl.head
      modifies elHash, this`elRefcnt
      ensures HashValid() && HashOnBeach()
      ensures elHash[b] == he
      ensures forall c :: 0 <= c < elHash.Length && c != b ==> elHash[c] == old(elHash[c])
      ensures var prev := old(elHash[b]);
        elRefcnt == Bumped(if prev == NULL then old(elRefcnt) else Bumped(old(elRefcnt), prev, -1), he, 1)
    {
      ghost var t := elHash[..];
      var prev := elHash[b];
      var rc := Bumped(if prev == NULL then elRefcnt else Bumped(elRefcnt, prev, -1), he, 1);
      CacheKeepsHash(t, leftEnd, rightEnd, elRefcnt, hfl.head, b, he, t[b := he], rc);
      CacheOnBeach(t, elEdge, beach, b, he);
      Install(b, he, rc);
    }

    /** The writes of a cache update: slot `b` of ELhash becomes `he` and the counts become `rc`. */
    method Install(b: int, he: int, rc: seq<int>)
      requires 0 <= b < elHash.Length == 2 * slab && |rc| == hfl.arena
      requires HashShape(elHash[..][b := he], leftEnd, rightEnd, rc, hfl.head)
      requires CachedOnBeach(elHash[..][b := he], elEdge, beach)
      modifies elHash, this`elRefcnt
      ensures HashValid() && HashOnBeach()
      ensures elHash[..] == old(elHash[..])[b := he] && elRefcnt == rc
    {
      elHash[b] := he;
      elRefcnt := rc;
      assert elHash[..] == old(elHash[..])[b := he];
    }

    /**
     * ELleftbnd's probe: try buckets bucket - i and bucket + i for i = 1, 2, ...
     * until one yields a half-edge. It stops at the latest at an end bucket,
     * which always holds its sentinel.
     */
    method ProbeOutward(bucket: int) returns (he: int)
      requires ArenaValid() && BeachValid() && HashValid() && HashOnBeach()
      requires 0 < bucket < elHash.Length - 1
      modifies elHash, this`elRefcnt, this`hfl
      ensures ArenaValid() && BeachValid() && HashValid() && HashOnBeach()
      ensures he in beach
      ensures PrunedFrom(old(elHash[..]), elHash[..], elEdge)
      ensures FreedTombstones(old(hfl), hfl, elEdge)
    {
      var i := 1;
      while true
        invariant ArenaValid() && BeachValid() && HashValid() && HashOnBeach()
        invariant 1 <= i <= bucket && bucket + i <= elHash.Length - 1
        invariant PrunedFrom(old(elHash[..]), elHash[..], elEdge)
        invariant FreedTombstones(old(hfl), hfl, elEdge)
        decreases bucket - i
      {
        ghost var t1, fl1 := elHash[..], hfl;
        he := ProbeAt(bucket, i);
        PrunedTwice(old(elHash[..]), t1, elHash[..], elEdge);
        FreedTwice(old(hfl), fl1, hfl, elEdge);
        if he != NULL {
          return;
        }
        i := i + 1;
      }
    }

    /**
     * One round of the probe: bucket - i, then bucket + i. Reaching an end
     * bucket yields its sentinel, so a round that touches either end finds
     * a half-edge.
     */
    method ProbeAt(bucket: int, i: int) returns (he: int)
      requires ArenaValid() && BeachValid() && HashValid() && HashOnBeach()
      requires 1 <= i <= bucket && bucket + i <= elHash.Length - 1
      modifies elHash, this`elRefcnt, this`hfl
      ensures ArenaValid() && BeachValid() && HashValid() && HashOnBeach()
      ensures he == NULL || he in beach
      ensures he == NULL ==> i < bucket && bucket + i < elHash.Length - 1
      ensures PrunedFrom(old(elHash[..]), elHash[..], elEdge)
      ensures FreedTombstones(old(hfl), hfl, elEdge)
    {
      assert leftEnd != NULL && rightEnd != NULL;
      he := ELGetHash(bucket - i);
      if he == NULL {
        ghost var t1, fl1 := elHash[..], hfl;
        he := ELGetHash(bucket + i);
        PrunedTwice(old(elHash[..]), t1, elHash[..], elEdge);
        FreedTwice(old(hfl), fl1, hfl, elEdge);
      }
    }

    /**
     * ELleftbnd's walk along the beach line from `start`: rightwards while the
     * point is right of the half-edge, then one step back; otherwise leftwards
     * until it is.
     */
    method WalkToLeftBnd(start: int, rightOf: int -> bool) returns (he: int)
      requires BeachValid() && start in beach
      ensures he in beach && LeftBoundary(beach, rightOf, IndexIn(beach, he))
      ensures 0 <= he < |elEdge| && he !in hfl.head
      ensures he != rightEnd && (he == leftEnd || rightOf(he))
      ensures elRight[he] == rightEnd || !rightOf(elRight[he])
    {
      ghost var k := IndexIn(beach, start);
      he := start;
      if he == leftEnd || (he != rightEnd && rightOf(he)) {
        assert k < |beach| - 1 && (k == 0 || rightOf(beach[k])) by {
          assert beach[0] == leftEnd && beach[|beach| - 1] == rightEnd;
        }
        he := elRight[he];
        k := k + 1;
        while he != rightEnd && rightOf(he)
          invariant 0 < k < |beach| && beach[k] == he
          invariant k - 1 == 0 || rightOf(beach[k - 1])
          decreases |beach| - k
        {
          he := elRight[he];
          k := k + 1;
        }
        he := elLeft[he];
        k := k - 1;
      } else {
        assert 0 < k;
        he := elLeft[he];
        k := k - 1;
        while he != leftEnd && !rightOf(he)
          invariant 0 <= k < |beach| - 1 && beach[k] == he
          invariant k + 1 == |beach| - 1 || !rightOf(beach[k + 1])
          decreases k
        {
          he := elLeft[he];
          k := k - 1;
        }
      }
      assert LeftBoundary(beach, rightOf, k);
      DistinctIndex(beach, k);
    }

    // ------------------------------------------------------------ the queue

    /** PQinitialize: 4 * sqrt_nsites empty buckets, PQmin and PQcount at zero. */
    method PQInitialize()
      modifies this`pqHash, this`pqMin, this`pqCount, this`buckets
      ensures fresh(pqHash) && pqHash.Length == 4 * slab && pqMin == 0 && pqCount == 0
      ensures |buckets| == 4 * slab && forall b :: 0 <= b < |buckets| ==> buckets[b] == [] && pqHash[b] == NULL
    {
      var table := NullTable(4 * slab);
      pqHash := table;
      pqMin := 0;
      pqCount := 0;
      buckets := seq(4 * slab, _ => []);
    }

    /** A queue whose buckets are all empty with NULL heads is sound over any half-edge arena. */
    lemma EmptyQueueValid()
      requires pqHash.Length == 4 * slab && |buckets| == 4 * slab && 0 <= pqMin < |buckets| && pqCount == 0
      requires forall b :: 0 <= b < |buckets| ==> buckets[b] == [] && pqHash[b] == NULL
      ensures QueueValid() && QueueOnBeach() && QueueVerticesLive()
    {
      TotalSizeZero(buckets);
      forall b | 0 <= b < |buckets|
        ensures BucketShape(Keys(), b, buckets[b], pqHash[..][b])
      {
      }
    }

    /** A fresh hash table of `n` buckets, each set to NULL. */
    static method NullTable(n: nat) returns (table: array<int>)
      ensures fresh(table) && table.Length == n
      ensures forall j :: 0 <= j < n ==> table[j] == NULL
    {
      table := new int[n];
      var i := 0;
      while i < n
        invariant 0 <= i <= n
        invariant forall j :: 0 <= j < i ==> table[j] == NULL
      {
        table[i] := NULL;
        i := i + 1;
      }
    }

    /** The ELhash of ELinitialize: `n` buckets, NULL except for `l` in the first and `r` in the last. */
    static method EndsTable(n: nat, l: int, r: int) returns (table: array<int>)
      requires n >= 2
      ensures fresh(table) && table.Length == n && table[0] == l && table[table.Length - 1] == r
      ensures forall j :: 0 < j < table.Length - 1 ==> table[j] == NULL
    {
      table := NullTable(n);
      table[0] := l;
      table[n - 1] := r;
    }

    /**
     * PQbucket: the bucket of `he`'s delayed key; as a side effect the PQmin
     * cursor is lowered to it when it lies below.
     */
    method PQBucket(he: int) returns (b: int)
      requires QueueValid() && 0 <= he < |ystar|
      modifies this`pqMin
      ensures QueueValid()
      ensures b == BucketOf(he) && 0 <= b < |buckets|
      ensures pqMin <= old(pqMin) && pqMin <= b
      ensures pqMin == (if b < old(pqMin) then b else old(pqMin))
    {
      b := PQBucketIndex(ystar[he], ymin, ymax, pqHash.Length);
      if b < pqMin {
        pqMin := b;
      }
    }

    /**
     * PQinsert: give `he` the candidate vertex `v` and the delayed key
     * v.y + offset, take a reference to `v`, and hang `he` in the bucket of
     * its key after every half-edge whose key is strictly before its own.
     */
    method PQInsert(he: int, v: int, offset: real)
      requires SitesValid() && ArenaValid() && QueueValid() && QueueOnBeach() && QueueVerticesLive()
      requires he in beach && 0 <= he < |vertex| && vertex[he] == NULL && Live(v)
      modifies this`vertex, this`ystar, this`refcnt, this`pqMin, pqHash, this`pqNext, this`pqCount, this`buckets
      ensures SitesValid() && ArenaValid() && QueueValid() && QueueOnBeach() && QueueVerticesLive()
      ensures vertex == old(vertex)[he := v] && ystar == old(ystar)[he := old(coord[v].y) + offset]
      ensures refcnt == Bumped(old(refcnt), v, 1) && pqCount == old(pqCount) + 1
      ensures var b := BucketOf(he);
        && 0 <= b < |buckets| && pqMin == (if b < old(pqMin) then b else old(pqMin))
        && (forall i :: 0 <= i < |old(buckets)[b]| ==> Keyed(Keys(), old(buckets)[b][i]))
        && buckets == old(buckets)[b := Spliced(old(buckets)[b], InsertPos(Keys(), old(buckets)[b], he), he)]
    {
      AttachVertex(he, v, offset);
      Hang(he);
    }

    /** PQinsert once the key of `he` is set: find its bucket, lower PQmin to it, and link it in. */
    method Hang(he: int)
      requires QueueValid() && QueueOnBeach() && QueueVerticesLive()
      requires he in beach && 0 <= he < |vertex| && 0 <= vertex[he] < |coord| && vertex[he] !in sfl.head
      requires |pqNext| == |ystar| == |vertex|
      requires forall c, i :: 0 <= c < |buckets| && 0 <= i < |buckets[c]| ==> buckets[c][i] != he
      modifies this`pqMin, pqHash, this`pqNext, this`pqCount, this`buckets
      ensures QueueValid() && QueueOnBeach() && QueueVerticesLive()
      ensures |pqNext| == old(|pqNext|) && pqCount == old(pqCount) + 1
      ensures var b := BucketOf(he);
        && 0 <= b < |buckets| && pqMin == (if b < old(pqMin) then b else old(pqMin))
        && (forall i :: 0 <= i < |old(buckets)[b]| ==> Keyed(Keys(), old(buckets)[b][i]))
        && buckets == old(buckets)[b := Spliced(old(buckets)[b], InsertPos(Keys(), old(buckets)[b], he), he)]
    {
      var b := PQBucket(he);
      ghost var k, s := Keys(), buckets[b];
      assert BucketShape(k, b, s, pqHash[..][b]);
      QueuedKeyed(k, s, b);
      Enqueue(b, he);
      InsertPosUnique(Keys(), s, he, InsertPos(k, s, he));
    }

    /**
     * The second half of PQinsert: walk bucket `b` to the slot of `he`,
     * whose key is already set, and link it in there.
     */
    method Enqueue(b: int, he: int)
      requires QueueValid() && QueueOnBeach() && QueueVerticesLive()
      requires pqMin <= b < |buckets| && QueuedIn(Keys(), he, b) && he in beach
      requires vertex[he] !in sfl.head && forall i :: 0 <= i < |buckets[b]| ==> Keyed(Keys(), buckets[b][i])
      requires forall c, i :: 0 <= c < |buckets| && 0 <= i < |buckets[c]| ==> buckets[c][i] != he
      modifies pqHash, this`pqNext, this`pqCount, this`buckets
      ensures QueueValid() && QueueOnBeach() && QueueVerticesLive()
      ensures |pqNext| == old(|pqNext|) && pqCount == old(pqCount) + 1
      ensures buckets == old(buckets)[b := Spliced(old(buckets)[b], InsertPos(old(Keys()), old(buckets)[b], he), he)]
    {
      ghost var k, bs, heads, m, count := Keys(), buckets, pqHash[..], pqMin, pqCount;
      ghost var bch, vx, nsite, free := beach, vertex, |coord|, sfl.head;
      assert QueueShape(k, bs, heads, m, count) && MembersOn(bs, bch) && VerticesLive(bs, vx, nsite, free);
      var last, next, p := FindSlot(b, he);
      Link(b, he, last, next, p);
      InsertKeepsQueue(k, bs, heads, m, count, b, he);
      QueueValidAt(k.(next := RelinkedNext(k.next, bs[b], p, he)), bs[b := Spliced(bs[b], p, he)],
                   heads[b := if p == 0 then he else heads[b]], m, count + 1);
      InsertKeepsMembers(bs, b, p, he, bch, vx, nsite, free);
      MembersAt(bs[b := Spliced(bs[b], p, he)]);
    }

    /** QueueOnBeach and QueueVerticesLive, from buckets `bs` that the current buckets equal. */
    lemma MembersAt(bs: seq<seq<int>>)
      requires MembersOn(bs, beach) && VerticesLive(bs, vertex, |coord|, sfl.head) && bs == buckets
      ensures QueueOnBeach() && QueueVerticesLive()
    {
    }

    /** QueueValid, from the shape of a snapshot that the current fields equal. */
    lemma QueueValidAt(k: QKeys, bs: seq<seq<int>>, heads: seq<int>, m: int, count: int)
      requires QueueShape(k, bs, heads, m, count) && pqHash.Length == 4 * slab
      requires k == Keys() && bs == buckets && heads == pqHash[..] && m == pqMin && count == pqCount
      ensures QueueValid()
    {
    }

    /**
     * The writes of PQinsert: `he` goes between `last` (or the bucket head)
     * and `next`, that is at position `p` of bucket `b`, and PQcount grows.
     */
    method Link(b: int, he: int, last: int, next: int, ghost p: nat)
      requires 0 <= b < pqHash.Length && b < |buckets| && 0 <= he < |pqNext| && p <= |buckets[b]|
      requires forall i :: 0 <= i < |buckets[b]| ==> 0 <= buckets[b][i] < |pqNext| && buckets[b][i] != he
      requires last == (if p == 0 then NULL else buckets[b][p - 1])
      requires next == (if p < |buckets[b]| then buckets[b][p] else NULL)
      modifies pqHash, this`pqNext, this`pqCount, this`buckets
      ensures pqNext == RelinkedNext(old(pqNext), old(buckets)[b], p, he)
      ensures pqHash[..] == old(pqHash[..])[b := if p == 0 then he else old(pqHash[b])]
      ensures buckets == old(buckets)[b := Spliced(old(buckets)[b], p, he)] && pqCount == old(pqCount) + 1
    {
      pqCount := pqCount + 1;
      buckets := buckets[b := Spliced(buckets[b], p, he)];
      pqNext := pqNext[he := next];
      if last == NULL {
        pqHash[b] := he;
      } else {
        pqNext := pqNext[last := he];
      }
    }

    /**
     * The first half of PQinsert: `he`, which had no vertex and so is not
     * queued, gets `v` and the delayed key, and `v` one more reference.
     */
    method AttachVertex(he: int, v: int, offset: real)
      requires SitesValid() && ArenaValid() && QueueValid() && QueueVerticesLive()
      requires 0 <= he < |vertex| && vertex[he] == NULL && Live(v)
      modifies this`vertex, this`ystar, this`refcnt
      ensures SitesValid() && ArenaValid() && QueueValid() && QueueVerticesLive() && Live(v)
      ensures vertex == old(vertex)[he := v] && ystar == old(ystar)[he := old(coord[v].y) + offset]
      ensures refcnt == Bumped(old(refcnt), v, 1)
    {
      ghost var k := Keys();
      NoVertexUnqueued(k, buckets, pqHash[..], pqMin, pqCount, he);
      VerticesLiveUpdate(buckets, vertex, |coord|, sfl.head, he, v);
      vertex := vertex[he := v];
      Ref(v);
      ystar := ystar[he := coord[v].y + offset];
      forall n ensures SameKey(k, Keys(), n) {
      }
      QueueShapeFrame(k, Keys(), buckets, pqHash[..], pqMin, pqCount);
      VerticesLiveAt(old(vertex)[he := v]);
    }

    /** QueueVerticesLive, from a vertex array that the current one equals. */
    lemma VerticesLiveAt(vx: seq<int>)
      requires VerticesLive(buckets, vx, |coord|, sfl.head) && vx == vertex
      ensures QueueVerticesLive()
    {
    }

    /**
     * The walk of PQinsert over bucket `b`: `last` is the member `he` goes
     * after (NULL for the bucket head) and `next` the one it goes before.
     */
    method FindSlot(b: int, he: int) returns (last: int, next: int, ghost p: nat)
      requires 0 <= b < |buckets| && pqHash.Length == |buckets|
      requires BucketShape(Keys(), b, buckets[b], pqHash[b]) && Keyed(Keys(), he)
      ensures forall i :: 0 <= i < |buckets[b]| ==> Keyed(Keys(), buckets[b][i])
      ensures p == InsertPos(Keys(), buckets[b], he)
      ensures last == (if p == 0 then NULL else buckets[b][p - 1])
      ensures next == (if p < |buckets[b]| then buckets[b][p] else NULL)
    {
      ghost var k := Keys();
      ghost var s := buckets[b];
      QueuedKeyed(k, s, b);
      assert AllQueuedIn(k, s, b) && Chained(k.next, s);
      last := NULL;
      next := pqHash[b];
      p := 0;
      while next != NULL && (ystar[he] > ystar[next] ||
                             (ystar[he] == ystar[next] && coord[vertex[he]].x > coord[vertex[next]].x))
        invariant 0 <= p <= |s|
        invariant last == (if p == 0 then NULL else s[p - 1]) && next == (if p < |s| then s[p] else NULL)
        invariant forall i :: 0 <= i < p ==> Before(k, s[i], he)
        decreases |s| - p
      {
        assert QueuedIn(k, s[p], b);
        last := next;
        next := pqNext[next];
        p := p + 1;
      }
      assert p < |s| ==> QueuedIn(k, s[p], b);
      InsertPosUnique(k, s, he, p);
    }

    /**
     * PQdelete: a half-edge with a candidate vertex is taken out of its
     * bucket, PQcount drops, the vertex loses a reference and is cleared; a
     * half-edge without one is left alone.
     */
    method PQDelete(he: int)
      requires SitesValid() && ArenaValid() && QueueValid() && QueueOnBeach() && QueueVerticesLive()
      requires 0 <= he < |vertex| && (vertex[he] != NULL ==> Queued(he))
      requires vertex[he] != NULL && refcnt[vertex[he]] == 1 ==> NotQueuedVertexBesides(vertex[he], he)
      modifies this`pqMin, pqHash, this`pqNext, this`pqCount, this`buckets, this`refcnt, this`sfl, this`vertex
      ensures SitesValid() && ArenaValid() && QueueValid() && QueueOnBeach() && QueueVerticesLive() && Unqueued(he)
      ensures pqMin == old(pqMin) && vertex == old(vertex)[he := NULL]
      ensures old(vertex[he]) == NULL ==>
        && buckets == old(buckets) && pqCount == old(pqCount) && pqNext == old(pqNext) && pqHash[..] == old(pqHash[..])
        && refcnt == old(refcnt) && sfl == old(sfl)
      ensures old(vertex[he]) != NULL ==>
        var v, b := old(vertex[he]), BucketOf(he);
        && 0 <= b < |buckets| && he in old(buckets)[b]
        && buckets == old(buckets)[b := Removed(old(buckets)[b], IndexIn(old(buckets)[b], he))]
        && pqCount == old(pqCount) - 1
        && refcnt == Bumped(old(refcnt), v, -1) && sfl == Released(old(sfl), v, refcnt[v])
    {
      if vertex[he] != NULL {
        Withdraw(he);
      } else {
        NoVertexUnqueued(Keys(), buckets, pqHash[..], pqMin, pqCount, he);
        assert vertex == vertex[he := NULL];
      }
    }

    /** PQdelete of a half-edge that has a candidate vertex, and so is queued. */
    method Withdraw(he: int)
      requires SitesValid() && ArenaValid() && QueueValid() && QueueOnBeach() && QueueVerticesLive()
      requires 0 <= he < |vertex| && vertex[he] != NULL && Queued(he)
      requires refcnt[vertex[he]] == 1 ==> NotQueuedVertexBesides(vertex[he], he)
      modifies this`pqMin, pqHash, this`pqNext, this`pqCount, this`buckets, this`refcnt, this`sfl, this`vertex
      ensures SitesValid() && ArenaValid() && QueueValid() && QueueOnBeach() && QueueVerticesLive() && Unqueued(he)
      ensures pqMin == old(pqMin) && vertex == old(vertex)[he := NULL]
      ensures var v, b := old(vertex[he]), BucketOf(he);
        && 0 <= b < |buckets| && he in old(buckets)[b]
        && buckets == old(buckets)[b := Removed(old(buckets)[b], IndexIn(old(buckets)[b], he))]
        && pqCount == old(pqCount) - 1
        && refcnt == Bumped(old(refcnt), v, -1) && sfl == Released(old(sfl), v, refcnt[v])
    {
      Unhang(he);
      Release(he);
    }

    /** The tail of PQdelete for a half-edge already unlinked: deref its vertex, then clear it. */
    method Release(he: int)
      requires SitesValid() && ArenaValid() && QueueValid() && QueueVerticesLive() && Unqueued(he)
      requires 0 <= he < |vertex| && vertex[he] != NULL && (refcnt[vertex[he]] == 1 ==> NotQueuedVertex(vertex[he]))
      modifies this`refcnt, this`sfl, this`vertex
      ensures SitesValid() && ArenaValid() && QueueValid() && QueueVerticesLive()
      ensures vertex == old(vertex)[he := NULL]
      ensures refcnt == Bumped(old(refcnt), old(vertex[he]), -1) && sfl == Released(old(sfl), old(vertex[he]), refcnt[old(vertex[he])])
    {
      Deref(vertex[he]);
      Detach(he);
    }

    /** The unlinking half of PQdelete: `he` leaves its bucket, PQmin stays where it is. */
    method Unhang(he: int)
      requires QueueValid() && QueueOnBeach() && QueueVerticesLive() && Queued(he)
      modifies this`pqMin, pqHash, this`pqNext, this`pqCount, this`buckets
      ensures QueueValid() && QueueOnBeach() && QueueVerticesLive() && Unqueued(he)
      ensures |pqNext| == old(|pqNext|) && pqCount == old(pqCount) - 1 && pqMin == old(pqMin)
      ensures var b := BucketOf(he);
        && 0 <= b < |buckets| && he in old(buckets)[b]
        && buckets == old(buckets)[b := Removed(old(buckets)[b], IndexIn(old(buckets)[b], he))]
      ensures 0 <= he < |vertex| && old(NotQueuedVertexBesides(vertex[he], he)) ==> NotQueuedVertex(vertex[he])
      ensures beach == old(beach) && vertex == old(vertex) && sfl == old(sfl) && refcnt == old(refcnt)
    {
      var b := PQBucket(he);
      Dequeue(b, he);
    }

    /** PQdelete once the bucket `b` of `he` is known: walk to its predecessor and unlink it. */
    method Dequeue(b: int, he: int)
      requires QueueValid() && QueueOnBeach() && QueueVerticesLive() && 0 <= b < |buckets| && he in buckets[b]
      modifies pqHash, this`pqNext, this`pqCount, this`buckets
      ensures QueueValid() && QueueOnBeach() && QueueVerticesLive() && Unqueued(he)
      ensures |pqNext| == old(|pqNext|) && pqCount == old(pqCount) - 1
      ensures buckets == old(buckets)[b := Removed(old(buckets)[b], IndexIn(old(buckets)[b], he))]
      ensures 0 <= he < |vertex| && old(NotQueuedVertexBesides(vertex[he], he)) ==> NotQueuedVertex(vertex[he])
    {
      ghost var k, bs, heads, m, count := Keys(), buckets, pqHash[..], pqMin, pqCount;
      ghost var bch, vx, nsite, free := beach, vertex, |coord|, sfl.head;
      assert QueueShape(k, bs, heads, m, count) && MembersOn(bs, bch) && VerticesLive(bs, vx, nsite, free);
      assert BucketShape(k, b, bs[b], heads[b]);
      var last, p := FindPred(b, he);
      RemoveKeepsQueue(k, bs, heads, m, count, b, p);
      Unlink(b, he, last, p);
      QueueValidAt(k.(next := UnlinkedNext(k.next, bs[b], p)), bs[b := Removed(bs[b], p)],
                   heads[b := if p == 0 then k.next[bs[b][0]] else heads[b]], m, count - 1);
      RemoveKeepsMembers(bs, b, p, bch, vx, nsite, free);
      MembersAt(bs[b := Removed(bs[b], p)]);
      if 0 <= he < |vertex| && VertexAbsent(bs, vx, vertex[he], he) {
        RemoveKeepsVertexAbsent(bs, b, p, vx, vertex[he]);
      }
    }

    /** The walk of PQdelete: `last` is the member before `he` in bucket `b`, NULL when `he` is its head. */
    method FindPred(b: int, he: int) returns (last: int, ghost p: nat)
      requires 0 <= b < |buckets| && pqHash.Length == |buckets| && he in buckets[b]
      requires pqHash[b] == buckets[b][0] && Chained(pqNext, buckets[b]) && NoRepeats(buckets[b])
      ensures p == IndexIn(buckets[b], he) && last == (if p == 0 then NULL else buckets[b][p - 1])
    {
      ghost var s := buckets[b];
      ghost var q := IndexIn(s, he);
      last := NULL;
      var next := pqHash[b];
      p := 0;
      while next != he
        invariant p <= q && last == (if p == 0 then NULL else s[p - 1]) && next == s[p]
        decreases q - p
      {
        last := next;
        next := pqNext[next];
        p := p + 1;
      }
      DistinctIndex(s, p);
    }

    /** The writes of PQdelete: the predecessor of `he` (or the bucket head) skips it, and PQcount drops. */
    method Unlink(b: int, he: int, last: int, ghost p: nat)
      requires 0 <= b < pqHash.Length && b < |buckets| && p < |buckets[b]| && buckets[b][p] == he
      requires 0 <= he < |pqNext| && (p > 0 ==> 0 <= buckets[b][p - 1] < |pqNext|)
      requires last == (if p == 0 then NULL else buckets[b][p - 1])
      modifies pqHash, this`pqNext, this`pqCount, this`buckets
      ensures pqNext == UnlinkedNext(old(pqNext), old(buckets)[b], p)
      ensures pqHash[..] == old(pqHash[..])[b := if p == 0 then old(pqNext)[old(buckets)[b][0]] else old(pqHash[b])]
      ensures buckets == old(buckets)[b := Removed(old(buckets)[b], p)] && pqCount == old(pqCount) - 1
    {
      if last == NULL {
        pqHash[b] := pqNext[he];
      } else {
        pqNext := pqNext[last := pqNext[he]];
      }
      pqCount := pqCount - 1;
      buckets := buckets[b := Removed(buckets[b], p)];
    }

    /** The last step of PQdelete: `he`, which hangs nowhere now, loses its vertex. */
    method Detach(he: int)
      requires ArenaValid() && QueueValid() && QueueVerticesLive() && 0 <= he < |vertex| && Unqueued(he)
      modifies this`vertex
      ensures ArenaValid() && QueueValid() && QueueVerticesLive()
      ensures vertex == old(vertex)[he := NULL] && buckets == old(buckets) && beach == old(beach)
    {
      ghost var k := Keys();
      VerticesLiveClear(buckets, vertex, |coord|, sfl.head, he);
      vertex := vertex[he := NULL];
      forall c, i | 0 <= c < |buckets| && 0 <= i < |buckets[c]|
        ensures SameKey(k, Keys(), buckets[c][i])
      {
        assert buckets[c][i] != he;
      }
      QueueShapeFrame(k, Keys(), buckets, pqHash[..], pqMin, pqCount);
      VerticesLiveAt(old(vertex)[he := NULL]);
    }

    /** PQempty: nothing is queued. */
    function PQEmpty(): (e: bool)
      requires QueueValid()
      reads this`pqHash, pqHash, this`pqMin, this`pqCount, this`buckets,
            this`ystar, this`vertex, this`pqNext, this`coord
      ensures e <==> forall b :: 0 <= b < |buckets| ==> buckets[b] == []
    {
      TotalSizeZero(buckets);
      pqCount == 0
    }

    /**
     * PQ_min: advance PQmin past empty buckets and report the key (x of the
     * vertex, delayed y) of the first queued half-edge, which no queued key
     * precedes. The source loops off the table on an empty queue; callers
     * check PQempty first.
     */
    method PQMin() returns (p: Point)
      requires QueueValid() && pqCount > 0
      modifies this`pqMin
      ensures QueueValid() && old(pqMin) <= pqMin && buckets[pqMin] != []
      ensures var h := buckets[pqMin][0]; QueuedOk(h, pqMin) && p == Point(KeyX(h), KeyY(h))
      ensures forall b, i :: 0 <= b < |buckets| && 0 <= i < |buckets[b]| ==>
        QueuedOk(buckets[b][i], b) && !KeyBefore(KeyY(buckets[b][i]), KeyX(buckets[b][i]), p.y, p.x)
    {
      TotalSizeZero(buckets);
      ghost var k := Keys();
      ghost var heads := pqHash[..];
      EmptyHeads(k, buckets, heads, pqMin, pqCount);
      var m := FirstNonEmpty(pqMin);
      pqMin := m;
      assert Keys() == k && pqHash[..] == heads;
      HeadIsMin(k, buckets, heads, m, pqCount);
      assert BucketShape(k, m, buckets[m], heads[m]);
      var h := pqHash[m];
      p := Point(coord[vertex[h]].x, ystar[h]);
    }

    /** The scan of PQ_min: the first bucket from `from` on whose PQhash head is not NULL. */
    method FirstNonEmpty(from: int) returns (m: int)
      requires pqHash.Length == |buckets| && 0 <= from
      requires forall b :: 0 <= b < |buckets| ==> (pqHash[b] == NULL <==> buckets[b] == [])
      requires exists w :: from <= w < |buckets| && buckets[w] != []
      ensures from <= m < |buckets| && buckets[m] != [] && pqHash[m] != NULL
      ensures forall b :: from <= b < m ==> buckets[b] == []
    {
      ghost var w :| from <= w < |buckets| && buckets[w] != [];
      m := from;
      while pqHash[m] == NULL
        invariant from <= m <= w
        invariant forall b :: from <= b < m ==> buckets[b] == []
        decreases w - m
      {
        m := m + 1;
      }
    }

    /**
     * PQextractmin: unhook the first half-edge of the PQmin bucket. Its vertex
     * and PQnext fields are left as they were.
     */
    method PQExtractMin() returns (he: int)
      requires QueueValid() && QueueOnBeach() && QueueVerticesLive()
      requires buckets[pqMin] != []
      modifies pqHash, this`pqCount, this`buckets
      ensures QueueValid() && QueueOnBeach() && QueueVerticesLive()
      ensures he == old(buckets[pqMin][0]) && he in beach && 0 <= he < |vertex| && vertex[he] != NULL
      ensures buckets == old(buckets)[pqMin := old(buckets[pqMin])[1..]]
      ensures pqCount == old(pqCount) - 1 && Unqueued(he)
      ensures QueuedOk(he, pqMin)
      ensures forall b, i :: 0 <= b < |buckets| && 0 <= i < |buckets[b]| ==>
        QueuedOk(buckets[b][i], b) && !KeyBefore(KeyY(buckets[b][i]), KeyX(buckets[b][i]), KeyY(he), KeyX(he))
    {
      ghost var s := buckets[pqMin];
      ghost var bs := buckets;
      ghost var heads := pqHash[..];
      ghost var k := Keys();
      ghost var bch := beach;
      ExtractKeepsShape(k, bs, heads, pqMin, pqCount);
      HeadIsMin(k, bs, heads, pqMin, pqCount);
      ExtractKeepsMembers(bs, pqMin, beach, vertex, |coord|, sfl.head);
      assert BucketShape(k, pqMin, s, heads[pqMin]);
      he := pqHash[pqMin];
      pqHash[pqMin] := pqNext[he];
      pqCount := pqCount - 1;
      buckets := DropHead(bs, pqMin);
      assert pqHash[..] == heads[pqMin := k.next[he]];
      assert Keys() == k && beach == bch;
    }

    // ------------------------------------------------------------ the sweep

    /**
     * intersect: the candidate circle event of two neighbouring half-edges.
     * Its discrete exits come first: no event when either half-edge is a
     * sentinel (has no edge), or when both bisectors have the same upper
     * site reg[1]. Otherwise the floating-point part (the determinant test
     * against 1e-10, the crossing point and the side test of the half-edge
     * whose upper site is lower) is the oracle `circle`, which receives both
     * edges and both half-edges' sides ELpm; a point it yields becomes a
     * fresh site with count 0.
     */
    method Intersect(el1: int, el2: int, circle: (int, int, int, int) -> Option<Point>) returns (v: int)
      requires SitesValid() && EdgesValid() && ArenaValid() && QueueValid() && QueueVerticesLive()
      requires RegionsDefined(el1) && RegionsDefined(el2)
      modifies this`coord, this`sitenbr, this`refcnt, this`sfl
      ensures SitesValid() && EdgesValid() && ArenaValid() && QueueValid() && QueueVerticesLive()
      ensures var e1, e2 := elEdge[el1], elEdge[el2];
        v == NULL <==>
          e1 == NULL || e2 == NULL || reg[e1].re == reg[e2].re || circle(e1, elPm[el1], e2, elPm[el2]).None?
      ensures v == NULL ==> coord == old(coord) && refcnt == old(refcnt) && sfl == old(sfl)
      ensures v != NULL ==>
        && Live(v) && coord[v] == circle(elEdge[el1], elPm[el1], elEdge[el2], elPm[el2]).value && refcnt[v] == 0
        && old(|coord|) <= |coord|
        && (v in old(sfl.head) || old(|coord|) <= v)
        && forall s :: 0 <= s < old(|coord|) && s != v ==>
             coord[s] == old(coord[s]) && refcnt[s] == old(refcnt[s]) && (s in sfl.head <==> s in old(sfl.head))
    {
      var e1, e2 := elEdge[el1], elEdge[el2];
      if e1 == NULL || e2 == NULL {
        return NULL;
      }
      if reg[e1].re == reg[e2].re {
        return NULL;
      }
      var p := circle(e1, elPm[el1], e2, elPm[el2]);
      if p.None? {
        return NULL;
      }
      v := NewVertex(p.value);
    }

    /** A point that is strictly before the queue minimum is strictly before every queued key. */
    lemma BeforeAllQueued(s: Point, p: Point)
      requires forall b, i :: 0 <= b < |buckets| && 0 <= i < |buckets[b]| ==>
        QueuedOk(buckets[b][i], b) && !KeyBefore(KeyY(buckets[b][i]), KeyX(buckets[b][i]), p.y, p.x)
      requires SweepBefore(s, p)
      ensures forall b, i :: 0 <= b < |buckets| && 0 <= i < |buckets[b]| ==>
        QueuedOk(buckets[b][i], b) && SweepBefore(s, Point(KeyX(buckets[b][i]), KeyY(buckets[b][i])))
    {
    }

    /**
     * The test at the head of the sweep loop on the engine's state. When the
     * queue is not empty PQ_min reads its minimum (advancing PQmin); the next
     * input site `newsite` (NULL once the input is used up) is processed
     * only when it is strictly before that minimum in (y, x), so on an exact
     * tie the circle event goes first. With neither left the sweep stops.
     */
    method NextEvent(newsite: int) returns (ev: Event)
      requires QueueValid() && (newsite == NULL || 0 <= newsite < |coord|)
      modifies this`pqMin
      ensures QueueValid() && buckets == old(buckets) && pqCount == old(pqCount)
      ensures ev == Finished <==> newsite == NULL && pqCount == 0
      ensures ev == SiteEvent ==> newsite != NULL && forall b, i :: 0 <= b < |buckets| && 0 <= i < |buckets[b]| ==>
        QueuedOk(buckets[b][i], b) && SweepBefore(coord[newsite], Point(KeyX(buckets[b][i]), KeyY(buckets[b][i])))
      ensures ev == CircleEvent ==> buckets[pqMin] != []
      ensures ev == CircleEvent ==>
        var h := buckets[pqMin][0];
        && QueuedOk(h, pqMin)
        && (newsite == NULL || !SweepBefore(coord[newsite], Point(KeyX(h), KeyY(h))))
        && forall b, i :: 0 <= b < |buckets| && 0 <= i < |buckets[b]| ==>
             QueuedOk(buckets[b][i], b) && !KeyBefore(KeyY(buckets[b][i]), KeyX(buckets[b][i]), KeyY(h), KeyX(h))
    {
      var qmin: Option<Point> := None;
      if !PQEmpty() {
        var p := PQMin();
        qmin := Some(p);
      }
      var site: Option<Point> := if newsite == NULL then None else Some(coord[newsite]);
      ev := SelectEvent(site, qmin);
      if ev == SiteEvent && qmin.Some? {
        BeforeAllQueued(site.value, qmin.value);
      }
    }

    /** The sentinels never carry a candidate vertex, so they are never queued. */
    ghost predicate SentinelsIdle()
      reads this`vertex, this`leftEnd, this`rightEnd
    {
      0 <= leftEnd < |vertex| && 0 <= rightEnd < |vertex| && vertex[leftEnd] == NULL && vertex[rightEnd] == NULL
    }

    /** The site numbers at both sides of beach half-edge `he` can be read: the bottom site or an edge in use. */
    ghost predicate RegionsNumbered(he: int)
      reads this`elEdge, this`elPm, this`reg, this`efl, this`bottomsite, this`sitenbr
    {
      && RegionsDefined(he)
      && (elEdge[he] == NULL ==> 0 <= bottomsite < |sitenbr|)
      && (elEdge[he] != NULL ==> elEdge[he] !in efl.head)
    }

    /**
     * The output step of a circle event: PQextractmin hands out `lbnd`, the
     * half-edge whose event is due, and with `rbnd` its right neighbour the
     * triple (leftreg(lbnd), rightreg(rbnd), rightreg(lbnd)) of input site
     * numbers is written at position count_tri of the caller's array, which
     * then grows by one. The rest of the event (closing the two edges,
     * deleting both half-edges and bisecting the new neighbours) follows in
     * the source.
     */
    method CircleTriple(trilists: array<Triple>, countTri: int) returns (lbnd: int, countTri': int)
      requires SitesValid() && EdgesValid() && ArenaValid() && BeachValid()
      requires QueueValid() && QueueOnBeach() && QueueVerticesLive() && buckets[pqMin] != []
      requires SentinelsIdle() && forall h :: h in beach ==> RegionsNumbered(h)
      requires 0 <= countTri < trilists.Length
      modifies pqHash, this`pqCount, this`buckets, trilists
      ensures QueueValid() && QueueOnBeach() && QueueVerticesLive() && BeachValid()
      ensures lbnd == old(buckets[pqMin][0]) && lbnd in beach && Unqueued(lbnd) && QueuedOk(lbnd, pqMin)
      ensures buckets == old(buckets)[pqMin := old(buckets[pqMin])[1..]] && pqCount == old(pqCount) - 1
      ensures forall b, i :: 0 <= b < |buckets| && 0 <= i < |buckets[b]| ==>
        QueuedOk(buckets[b][i], b) && !KeyBefore(KeyY(buckets[b][i]), KeyX(buckets[b][i]), KeyY(lbnd), KeyX(lbnd))
      ensures lbnd != leftEnd && lbnd != rightEnd && elRight[lbnd] in beach
      ensures var rbnd := elRight[lbnd];
        RegionsNumbered(lbnd) && RegionsNumbered(rbnd) &&
        var bot, top, mid := LeftReg(lbnd), RightReg(rbnd), RightReg(lbnd);
        && 0 <= bot < |sitenbr| && 0 <= top < |sitenbr| && 0 <= mid < |sitenbr|
        && trilists[..] == old(trilists[..])[countTri := Triple(sitenbr[bot], sitenbr[top], sitenbr[mid])]
      ensures countTri' == countTri + 1
    {
      lbnd := PQExtractMin();
      countTri' := WriteTriple(lbnd, trilists, countTri);
    }

    /**
     * The write of out_triple as inlined in voronoi: for a half-edge `lbnd`
     * strictly inside the beach line and its right neighbour `rbnd`, the
     * site numbers of leftreg(lbnd), rightreg(rbnd) and rightreg(lbnd) go to
     * trilists[count_tri], and count_tri grows by one.
     */
    method WriteTriple(lbnd: int, trilists: array<Triple>, countTri: int) returns (countTri': int)
      requires SitesValid() && EdgesValid() && ArenaValid() && BeachValid() && SentinelsIdle()
      requires forall h :: h in beach ==> RegionsNumbered(h)
      requires lbnd in beach && 0 <= lbnd < |vertex| && vertex[lbnd] != NULL
      requires 0 <= countTri < trilists.Length
      modifies trilists
      ensures lbnd != leftEnd && lbnd != rightEnd && elRight[lbnd] in beach
      ensures var rbnd := elRight[lbnd];
        RegionsNumbered(lbnd) && RegionsNumbered(rbnd) &&
        var bot, top, mid := LeftReg(lbnd), RightReg(rbnd), RightReg(lbnd);
        && 0 <= bot < |sitenbr| && 0 <= top < |sitenbr| && 0 <= mid < |sitenbr|
        && trilists[..] == old(trilists[..])[countTri := Triple(sitenbr[bot], sitenbr[top], sitenbr[mid])]
      ensures countTri' == countTri + 1
    {
      ghost var k := IndexIn(beach, lbnd);
      assert lbnd != leftEnd && lbnd != rightEnd;
      assert 0 < k < |beach| - 1 by {
        assert beach[0] == leftEnd && beach[|beach| - 1] == rightEnd;
      }
      var rbnd := elRight[lbnd];
      assert rbnd == beach[k + 1];
      var bot := LeftReg(lbnd);
      var top := RightReg(rbnd);
      var mid := RightReg(lbnd);
      assert RegionsNumbered(lbnd) && RegionsNumbered(rbnd);
      assert 0 <= bot < |sitenbr| && 0 <= top < |sitenbr| && 0 <= mid < |sitenbr|;
      trilists[countTri] := Triple(sitenbr[bot], sitenbr[top], sitenbr[mid]);
      countTri' := countTri + 1;
    }
  }
}
