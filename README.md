# Fortune's sweep in `voronoi_setsm.c`, modelled in Dafny

This project models the discrete machinery of the sweep-line Voronoi/Delaunay
engine in `voronoi_setsm.c`. That file is Fortune's algorithm as adapted by
Bradley and used by SETSM to triangulate point clouds. The model proves
properties of that machinery. It covers:

- the (y, x) site comparator `scomp`;
- the input cursor `nextone`;
- the copy and bounding-box steps of `readsites`;
- the slab free lists `freeinit`/`getfree`/`makefree`;
- the site reference counts `ref`/`deref`;
- the beach line: a doubly linked list of half-edges between two sentinels,
  indexed by the lazily pruned hash table `ELhash`. Its operations are
  `ELinitialize`, `HEcreate`, `ELinsert`, `ELdelete`, `ELgethash`,
  `ELleftbnd`, `leftreg` and `rightreg`;
- the bucketed circle-event queue `PQhash`. Its operations are
  `PQinitialize`, `PQbucket`, `PQinsert`, `PQdelete`, `PQempty`, `PQ_min`
  and `PQextractmin`;
- edge completion in `endpoint`;
- the discrete exits of `intersect`;
- the sweep loop's event choice and the triple it writes for each circle event.

Layout:

- `geometry.dfy` (module `Geometry`): points, `Scomp`, the event choice
  `SelectEvent`, and C's double-to-int truncation.
- `memory.dfy` (module `Memory`): the free list as a value `FreeList(head,
  arena)`. `head` is the chain of free slots and `arena` the number of slots
  allocated so far. It also holds `GetFree` with its refill loop, and
  `sqrt_nsites`.
- `reader.dfy` (module `Reader`): the copy loop and the bounds loop of
  `readsites`.
- `sweep.dfy` (module `Sweep`): the class `Voronoi`, which holds the per-run
  globals of the engine as fields.
  - Sites, edges and half-edges are arena slots, which stand in for pointers.
    `NULL` is -1, and the `DELETED` tombstone is -2.
  - The ghost field `beach` is the beach line as a sequence from `ELleftend`
    to `ELrightend`. The ghost field `buckets` is the list hanging off each
    `PQhash` bucket.
  - Invariants tie these to the link fields. `BeachValid` requires a doubly
    linked list of live, untombstoned half-edges. `HashValid` requires the
    sentinels in the end buckets and `ELrefcnt` equal to the number of inner
    buckets caching a half-edge. `QueueValid` requires each bucket to be a
    `PQnext` chain, sorted by (ystar, vertex.x), with keys that map to that
    bucket, every bucket below `PQmin` empty, and `PQcount` equal to the
    total.
  - Module-level lemmas prove that each splice, unlink or cache write keeps
    these invariants.

The floating-point geometry enters only through parameters:

- `ELleftbnd` receives the `right_of` test as a function `rightOf`.
- `intersect` receives the crossing point of two bisectors, with the side
  test on the half-edges' `ELpm`, as an oracle `circle`.
- `PQinsert` receives the distance it adds to the vertex's y as `offset`.

## Model

| member | source | states |
|---|---|---|
| Geometry.Scomp | voronoi_setsm.c:58-80 | returns only -1, 0 or 1; 0 exactly when the points are equal; -1 exactly when s1 is before s2 in (y, then x); 1 exactly when s2 is before s1 |
| Geometry.ScompTotalOrder | voronoi_setsm.c:58-80 | the comparator is antisymmetric, transitive and total, so it is a valid qsort order |
| Geometry.SortedYBounds | voronoi_setsm.c:131-132 | in a sequence sorted by the comparator, the first site has the least y and the last site the greatest |
| Geometry.SelectEvent | voronoi_setsm.c:991-998 | the new site is processed iff it exists and the queue is empty or the site is strictly before the queue minimum in (y, x); a circle event iff the queue is non-empty and the site is absent or not strictly before; the sweep stops iff both are absent |
| Geometry.TieGoesToCircle | voronoi_setsm.c:995-998 | a site equal to the queue minimum yields a circle event |
| Geometry.Trunc | voronoi_setsm.c:231 | double-to-int conversion truncates toward zero: below r by less than 1 for r >= 0, above r by less than 1 for r < 0 |
| Memory.FreeInit | voronoi_setsm.c:659-664 | an empty, well-formed free chain over the existing arena |
| Memory.MakeFree | voronoi_setsm.c:684-689 | the slot is pushed on the head of the chain; the rest of the chain and the arena are unchanged |
| Memory.MakeFreeWellFormed | voronoi_setsm.c:684-689 | pushing keeps the chain well formed exactly when the slot is in the arena and not already free |
| Memory.Descending | voronoi_setsm.c:673-676 | a refill leaves the fresh slots on the chain, last-made first, and exactly the slots of the new slab |
| Memory.GetFree | voronoi_setsm.c:666-682 | a non-empty chain hands out its head and keeps the tail; an empty one is refilled with `slab` fresh slots first; the result is not free afterwards, the chain stays well formed, and the free set loses exactly that slot and gains only fresh slots |
| Memory.MakeFreeThenGet | voronoi_setsm.c:666-689 | LIFO: getfree right after makefree returns the slot just released and restores the chain |
| Memory.SqrtNSites | voronoi_setsm.c:337 | sqrt_nsites is the integer square root of nsites + 4 (s*s <= nsites + 4 < (s+1)*(s+1)), hence at least 2 |
| Reader.CopySites | voronoi_setsm.c:101-113 | one site per input point: same x and y, numbered by input position, reference count 0 |
| Reader.SortedNumbers | voronoi_setsm.c:109-115 | after the sort, the site at position i is numbered perm[i], lies at input point perm[i] and has count 0 |
| Reader.SiteBounds | voronoi_setsm.c:116-133 | no bounds exactly when there are no sites; otherwise xmin/xmax bound every x and are attained, ymin/ymax are the first and last y (together `BoxOf`), and when the array is sorted they bound every y |
| Reader.BoxUnique | voronoi_setsm.c:116-133 | the box of a point sequence is determined by the points, so the box the engine is given is the one the scan computes |
| Reader.BoxBoundsSorted | voronoi_setsm.c:131-132 | for a sorted sequence the box bounds every point in x and y |
| Sweep.PQBucketIndex | voronoi_setsm.c:585-601 | the bucket always lies in [0, PQhashsize - 1]; a key below ymin goes to bucket 0 and one at or above ymax to the last bucket |
| Sweep.PQBucketMonotone | voronoi_setsm.c:585-601 | a smaller delayed y never lands in a higher bucket |
| Sweep.ELBucketIndex | voronoi_setsm.c:230-239 | the start bucket always lies in [0, ELhashsize - 1] and, for a non-zero x range, is the truncated scaled x clamped into that range |
| Sweep.TotalSizeZero | voronoi_setsm.c:609-613 | the number queued is zero exactly when every bucket is empty |
| Sweep.SpliceIn | voronoi_setsm.c:190-197 | ELinsert's four link writes keep the list doubly linked, with the new half-edge between lb and its old right neighbour |
| Sweep.SpliceOut | voronoi_setsm.c:288-294 | ELdelete's two link writes keep the list doubly linked without the half-edge |
| Sweep.InitKeepsBeach | voronoi_setsm.c:168-171 | the two linked sentinels form a well-shaped beach line |
| Sweep.InsertKeepsShape | voronoi_setsm.c:190-197 | insertion keeps the beach-line shape and every old member |
| Sweep.DeleteKeepsShape | voronoi_setsm.c:288-294 | unlinking and tombstoning a non-sentinel keeps the shape; exactly that half-edge leaves the line |
| Sweep.InitKeepsHash | voronoi_setsm.c:162-173 | a table with the sentinels at both ends, every inner bucket empty and every count zero is sound |
| Sweep.ClearKeepsHash | voronoi_setsm.c:215-217 | clearing an inner bucket and decrementing its half-edge's count keeps each count equal to the number of buckets caching that half-edge |
| Sweep.FreeKeepsHash | voronoi_setsm.c:217-220 | a non-sentinel half-edge with count 0 is in no bucket, so freeing it keeps the table sound |
| Sweep.CacheKeepsHash | voronoi_setsm.c:272-280 | re-pointing an inner bucket, with one count moving from the old entry to the new one, keeps the table sound |
| Sweep.CacheOnBeach | voronoi_setsm.c:278 | caching a half-edge of the beach line keeps every live cached half-edge on the line |
| Sweep.LeftBndUnique | voronoi_setsm.c:257-270 | when the half-edges right of the point form a prefix of the line, the walk's stopping place is unique, whatever bucket it started from |
| Sweep.ExtractKeepsShape | voronoi_setsm.c:630-639 | unhooking the head of the PQmin bucket leaves a sound queue with one member fewer, the rest in place |
| Sweep.EmptyHeads | voronoi_setsm.c:621 | a bucket head is NULL exactly when the bucket is empty |
| Sweep.HeadIsMin | voronoi_setsm.c:616-628 | the head of the first non-empty bucket has a key no queued key precedes |
| Sweep.InsertKeepsQueue | voronoi_setsm.c:545-564 | splicing a keyed, unqueued half-edge in at its insertion position keeps the queue sound (chains, sorted keys, bucket placement, count + 1) |
| Sweep.SpliceSorted | voronoi_setsm.c:554-562 | inserting before the first key that is not strictly smaller keeps a bucket in ascending (ystar, x) order |
| Sweep.RemoveKeepsQueue | voronoi_setsm.c:566-583 | unlinking any member keeps the queue sound with count - 1, and the member hangs nowhere afterwards |
| Sweep.NoVertexUnqueued | voronoi_setsm.c:571 | a half-edge without a vertex is in no bucket, which is why PQdelete skips it |
| Sweep.InputSites | voronoi_setsm.c:101-132 | the sites readsites copies and qsort arranges in order `perm`, with the box computed from them, satisfy `ReadSites`: in particular every site lies inside the box, the y bounds by sortedness |
| Sweep.Voronoi.constructor | voronoi_setsm.c:48-339 | what initializeVoronoi (48-55), readsites with its qsort (101-115) and geominit (332-339) leave: for a non-empty input and over any sorting permutation qsort may choose, the site arena is `Sweep.ReadSites` (sites sorted by the comparator, numbers a permutation of the input indices, site i at input point sitenbr[i], every count 0, empty site free list, every site inside the box) and xmin, xmax, ymin and ymax are readsites' box of the sorted sites (`Reader.BoxOf`); with no input every site array is empty; siteidx = 0; the edge arena is empty with nedges = 0, slab = sqrt_nsites, deltax = xmax - xmin |
| Sweep.Voronoi.BeginSweep | voronoi_setsm.c:984-987 | an empty, sound queue; a beach line of just the two sentinels with its hash sound; the bottom site is site 0 when there is one |
| Sweep.Voronoi.NextOne | voronoi_setsm.c:84-97 | hands out the next sorted site and advances the cursor, or NULL with the cursor unchanged once all are used |
| Sweep.Voronoi.Ref | voronoi_setsm.c:537-541 | the site's count rises by one; nothing else changes |
| Sweep.Voronoi.Deref | voronoi_setsm.c:528-535 | the count falls by one, and the site goes on the free list exactly when the count reaches zero |
| Sweep.Voronoi.NewVertex | voronoi_setsm.c:422-426 | the slot getfree hands out (`Memory.Taken`: the head of the site free list, or the last slot of a fresh slab), now live, at the given point, with count 0; every other site is unchanged |
| Sweep.Voronoi.Bisect | voronoi_setsm.c:342-353 | the edge slot getfree hands out (`Memory.Taken` on the edge free list), in use with regions (s1, s2) and no endpoints; both sites gain one reference; nedges + 1 |
| Sweep.Voronoi.Endpoint | voronoi_setsm.c:496-509 | sets end lr and refs s; only when the other end was set does it deref both region sites (freeing any that reach zero) and free the edge |
| Sweep.Voronoi.CloseEdge | voronoi_setsm.c:505-508 | both generator sites lose a reference, each freed at zero, and the edge goes on the edge free list |
| Sweep.Voronoi.LeftReg | voronoi_setsm.c:308-317 | the bottom site for a sentinel; otherwise the region of the edge on the half-edge's own side, reg[ELpm] |
| Sweep.Voronoi.RightReg | voronoi_setsm.c:319-328 | the bottom site for a sentinel; otherwise leftreg and rightreg together are exactly the edge's two sites, and they differ whenever those sites do |
| Sweep.Voronoi.TwinRegions | voronoi_setsm.c:308-328 | the two half-edges of one edge see its sites from opposite sides, and together they name both sites |
| Sweep.Voronoi.HECreate | voronoi_setsm.c:176-188 | the half-edge slot getfree hands out (`Memory.Taken` on the half-edge free list), with the given edge and side, no PQnext, no vertex and count 0; every other half-edge is unchanged; being free or fresh it is on no beach line, in no bucket and in no queue, so the beach-line, hash and queue invariants that held before still hold |
| Sweep.Voronoi.ELInitialize | voronoi_setsm.c:154-174 | 2*sqrt_nsites buckets, all NULL except the sentinels in the first and last; a beach line of just the two linked sentinels |
| Sweep.Voronoi.ELInsert | voronoi_setsm.c:190-197 | the beach line gains the new half-edge right after lb; only the links of the new half-edge, lb and lb's old right neighbour change; all invariants hold |
| Sweep.Voronoi.ELDelete | voronoi_setsm.c:288-294 | the neighbours are joined, the half-edge is tombstoned but not freed, and it leaves the beach line; nothing else changes |
| Sweep.Voronoi.ELGetHash | voronoi_setsm.c:201-222 | out of range: NULL, no change; NULL or live entry: returned, no change; tombstoned entry: slot cleared, count decremented, freed exactly at zero, NULL; the end buckets always yield the sentinels |
| Sweep.FreeUncounted | voronoi_setsm.c:217-220 | in a sound table a free half-edge has count 0 |
| Sweep.Voronoi.PruneAt | voronoi_setsm.c:214-221 | clears an inner bucket holding a tombstone, decrements the count, and frees the half-edge exactly at zero; the table stays sound |
| Sweep.Voronoi.ELLeftBnd | voronoi_setsm.c:224-282 | returns the half-edge on the beach line where the point is right of it (or it is the left sentinel) and not right of its right neighbour (or that is the right sentinel); an inner start bucket then caches it; every other bucket keeps its entry or loses a tombstoned one; the only half-edges freed are tombstones, and every free half-edge has count 0 |
| Sweep.Voronoi.FreeSlotsUncounted | voronoi_setsm.c:217-220 | a half-edge on the free list is cached in no bucket, so its count is 0 |
| Sweep.Voronoi.ProbeOutward | voronoi_setsm.c:241-255 | the outward probe ends with a half-edge on the beach line; it stops at the latest at an end bucket holding its sentinel; it only prunes tombstones |
| Sweep.Voronoi.ProbeAt | voronoi_setsm.c:245-252 | one round of the probe: a NULL result implies both probed buckets were inner ones |
| Sweep.Voronoi.WalkToLeftBnd | voronoi_setsm.c:257-270 | from any start on the beach line the walk stops at the left boundary of the point |
| Sweep.Voronoi.CacheAt | voronoi_setsm.c:271-280 | the bucket now holds the answer; the old entry's count drops by 1 and the answer's rises by 1; other buckets are unchanged |
| Sweep.Voronoi.PQInitialize | voronoi_setsm.c:641-653 | 4*sqrt_nsites NULL buckets; PQmin and PQcount are 0 |
| Sweep.Voronoi.PQBucket | voronoi_setsm.c:585-607 | the bucket of the half-edge's key; PQmin only moves down, to that bucket when it lies below |
| Sweep.Voronoi.PQInsert | voronoi_setsm.c:545-564 | sets the vertex and the delayed y = v.y + offset, refs v, and splices the half-edge into its bucket at the first key not strictly before its own; PQcount + 1; the queue stays sound |
| Sweep.Voronoi.FindSlot | voronoi_setsm.c:553-558 | the walk stops at the insertion position: after every strictly smaller key, before the first that is not |
| Sweep.Voronoi.PQDelete | voronoi_setsm.c:566-583 | no change without a vertex; otherwise removes exactly that half-edge from its bucket, PQcount - 1, derefs the vertex and clears it; PQmin unchanged |
| Sweep.Voronoi.FindPred | voronoi_setsm.c:572-576 | the walk finds the member just before the half-edge in its bucket, or NULL when it heads the bucket |
| Sweep.Voronoi.PQEmpty | voronoi_setsm.c:609-613 | true exactly when every bucket is empty |
| Sweep.Voronoi.PQMin | voronoi_setsm.c:616-628 | PQmin only advances, to a non-empty bucket; the answer is the (vertex.x, ystar) key of its head, which no queued key precedes; nothing is removed |
| Sweep.Voronoi.FirstNonEmpty | voronoi_setsm.c:621-624 | the scan stops at the first non-empty bucket at or after its start |
| Sweep.Voronoi.PQExtractMin | voronoi_setsm.c:630-639 | removes the head of the PQmin bucket, which has a key no remaining key precedes; PQcount - 1; the queue stays sound |
| Sweep.Voronoi.Intersect | voronoi_setsm.c:378-426 | no vertex exactly when either half-edge is a sentinel, both edges share reg[1], or the crossing test on the two edges and sides fails; otherwise a new live site at the crossing point with count 0 |
| Sweep.Voronoi.BeforeAllQueued | voronoi_setsm.c:995-998 | a site strictly before the queue minimum is strictly before every queued event |
| Sweep.Voronoi.NextEvent | voronoi_setsm.c:989-998 | the loop stops exactly when the input and the queue are both exhausted; a site event only for a site strictly before every queued event; otherwise the head of the PQmin bucket, which no queued event precedes and the site does not strictly precede |
| Sweep.Voronoi.CircleTriple | voronoi_setsm.c:1027-1048 | extracts the minimum event's half-edge lbnd and writes (sitenbr of leftreg(lbnd), rightreg(rbnd), rightreg(lbnd)) at count_tri, which grows by one |
| Sweep.Voronoi.WriteTriple | voronoi_setsm.c:1042-1048 | a queued half-edge is never a sentinel, so rbnd exists; the triple of its site numbers goes to trilists[count_tri] and count_tri grows by one |

## Left out

- Floating-point geometry: `right_of` (lines 431-494) becomes the parameter
  `rightOf`. The bisector coefficients of `bisect` (354-371), the arithmetic
  of `intersect` (397-421) and `dist` (511-519) become the oracle `circle`
  (given both edges and both half-edges' sides) and the parameter `offset`. Doubles are modelled as exact reals.
- Output and plotting: `out_site`, `out_bisector`, `out_ep`, `out_vertex`,
  `out_triple`, `plotinit`, `clip_line`, `openpl`, `line`, `circle` and
  `range` only print. `readone` reads standard input.
- Raw allocation: `myalloc` and `free_all` are replaced by arenas that grow
  one slab at a time. Exhausted memory is not modelled.
- `qsort`: a C library call, not modelled as an algorithm. Its result is a
  parameter: the constructor receives the input points with a permutation
  `perm` that sorts them by the comparator, and each sorted site keeps its
  input index as its number (`Reader.Arrange`, `Reader.SortedNumbers`).
  `Reader.SiteBounds` states its y bounds for a sorted array.
- The search statistics `ntry` and `totalsearch` (lines 21, 254 and 256):
  counters that nothing in the engine reads.
- The rest of the sweep loop body: the site event (lines 1003-1023), the
  remainder of the circle event after the triple (1061-1091) and the final
  `out_ep` loop (1099-1105). Each step is one of the modelled operations, but
  chaining them also needs facts about the geometry, for example that a beach
  line ordered by x makes `right_of` a prefix test. Those facts are not
  modelled. Neither is the invariant that a site's `refcnt` equals the number
  of edges and queued half-edges referring to it.
- `makevertex` (521-526): it numbers vertices with `nvertices` and prints
  them. Vertex numbers never reach the triples.
- `ELright`/`ELleft` (296-306): plain field reads.
- `grid_triangulation.hpp`: it declares the grid triangulator, whose
  definitions are not part of this model.
- 32-bit `int`: counts and indices are unbounded integers. No count in the
  modelled paths comes near 2^31.
- Sweep.ELBucketIndex: with a zero x range (every site has the same x), the
  division gives a NaN or an infinity, and converting that to `int` is
  undefined in C. The model starts from bucket 0.
- Geometry.Trunc: a double outside the `int` range is undefined to convert in
  C. The model truncates over the unbounded integers.
- Sweep.Voronoi.constructor: with no input sites, readsites leaves xmin, xmax,
  ymin and ymax as they were, so the model accepts any box in that case.
- Sweep.Voronoi.PQMin: requires a non-empty queue. On an empty queue the C
  loop runs past the table. The sweep loop only calls it after `PQempty`
  returns false.
- Sweep.Voronoi.Deref: requires that a site whose count drops to zero is not
  the vertex of a queued half-edge. The source keeps this through its
  reference counts, which the model does not track as an invariant (see
  above). `PQDelete`, `Endpoint` and `CloseEdge` pass the same condition on.
- Sweep.Voronoi.CircleTriple: requires `trilists` to have room at
  `count_tri`. The caller sizes the array, and C does no check.
- Sweep.Voronoi.CircleTriple: requires every beach half-edge to be a sentinel
  or to have an edge in use. The source relies on this without checking it.
- The `triangulate && !plot && !debug` guard at line 1042 is always true,
  because `initializeVoronoi` fixes those flags. The triple is therefore
  written unconditionally.
- Ties between a site and a circle event: the usual description of the
  algorithm gives a tie to the new site. The code at lines 995-998 compares
  strictly, so an exact tie goes to the circle event. The model follows the
  code (`Geometry.TieGoesToCircle`).
