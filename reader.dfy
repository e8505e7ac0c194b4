// readsites: copy the caller's 3-D points into the site array and compute the
// bounding box that the hash tables are scaled by. The qsort between the two
// steps is the C library's: only its result, a sorting permutation of the
// copied sites, is modelled here.
module Reader {
  import opened Geometry

  /** A caller point; the third coordinate passes through unused. */
  datatype D3Point = D3Point(x: real, y: real, z: real)

  /** An input site: its coordinates, its number (input index) and its reference count. */
  datatype Site = Site(coord: Point, sitenbr: int, refcnt: int)

  function Coords(sites: seq<Site>): (ps: seq<Point>)
    ensures |ps| == |sites| && forall i :: 0 <= i < |sites| ==> ps[i] == sites[i].coord
  {
    if sites == [] then [] else [sites[0].coord] + Coords(sites[1..])
  }

  /** The copy loop of readsites: site i is point i, numbered i, with no references yet. */
  method CopySites(pts: seq<D3Point>) returns (sites: seq<Site>)
    ensures |sites| == |pts|
    ensures forall i :: 0 <= i < |pts| ==>
      sites[i].coord == Point(pts[i].x, pts[i].y) && sites[i].sitenbr == i && sites[i].refcnt == 0
  {
    sites := [];
    var nsites := 0;
    while nsites < |pts|
      invariant nsites == |sites| <= |pts|
      invariant forall i :: 0 <= i < nsites ==>
        sites[i].coord == Point(pts[i].x, pts[i].y) && sites[i].sitenbr == i && sites[i].refcnt == 0
    {
      sites := sites + [Site(Point(pts[nsites].x, pts[nsites].y), nsites, 0)];
      nsites := nsites + 1;
    }
  }

  /** `perm` names every index below `n` exactly once: an order qsort may leave n sites in. */
  ghost predicate IsPermutation(perm: seq<int>, n: int)
  {
    && |perm| == n
    && (forall i :: 0 <= i < n ==> 0 <= perm[i] < n)
    && (forall i, j :: 0 <= i < j < n ==> perm[i] != perm[j])
  }

  /**
   * The array qsort leaves behind when it moves input element perm[i] to
   * position i: every element travels whole, so a site keeps its number.
   */
  function Arrange<T>(s: seq<T>, perm: seq<int>): seq<T>
    requires forall i :: 0 <= i < |perm| ==> 0 <= perm[i] < |s|
  {
    seq(|perm|, i requires 0 <= i < |perm| => s[perm[i]])
  }

  /**
   * readsites up to its bounds step: the copied sites sorted by `perm` carry
   * their input indices, so the site at position i is numbered perm[i] and
   * lies at input point perm[i].
   */
  lemma SortedNumbers(pts: seq<D3Point>, sites: seq<Site>, perm: seq<int>)
    requires |sites| == |pts| && IsPermutation(perm, |pts|)
    requires forall i :: 0 <= i < |pts| ==>
      sites[i].coord == Point(pts[i].x, pts[i].y) && sites[i].sitenbr == i && sites[i].refcnt == 0
    ensures forall i :: 0 <= i < |perm| ==>
      && Arrange(sites, perm)[i].sitenbr == perm[i]
      && Arrange(sites, perm)[i].coord == Point(pts[perm[i]].x, pts[perm[i]].y)
      && Arrange(sites, perm)[i].refcnt == 0
  {
  }

  /** The bounding box that readsites leaves in xmin, xmax, ymin, ymax. */
  datatype Bounds = Bounds(xmin: real, xmax: real, ymin: real, ymax: real)

  /**
   * `b` is the box readsites computes for the non-empty point sequence `ps`:
   * x bounds that hold every x and are attained, y bounds read off the first
   * and last point.
   */
  ghost predicate BoxOf(ps: seq<Point>, b: Bounds)
  {
    && |ps| > 0
    && (forall i :: 0 <= i < |ps| ==> b.xmin <= ps[i].x <= b.xmax)
    && b.xmin in Xs(ps) && b.xmax in Xs(ps)
    && b.ymin == ps[0].y && b.ymax == ps[|ps| - 1].y
  }

  /** The x coordinates of `ps`, in order. */
  ghost function Xs(ps: seq<Point>): (xs: seq<real>)
    ensures |xs| == |ps| && forall i :: 0 <= i < |ps| ==> xs[i] == ps[i].x
  {
    if ps == [] then [] else [ps[0].x] + Xs(ps[1..])
  }

  /** The box of a point sequence is determined by the points. */
  lemma BoxUnique(ps: seq<Point>, b1: Bounds, b2: Bounds)
    requires BoxOf(ps, b1) && BoxOf(ps, b2)
    ensures b1 == b2
  {
    var xs := Xs(ps);
    var i1 :| 0 <= i1 < |xs| && xs[i1] == b1.xmin;
    var i2 :| 0 <= i2 < |xs| && xs[i2] == b2.xmin;
    var j1 :| 0 <= j1 < |xs| && xs[j1] == b1.xmax;
    var j2 :| 0 <= j2 < |xs| && xs[j2] == b2.xmax;
    assert b1.xmin <= ps[i2].x && b2.xmin <= ps[i1].x;
    assert ps[j2].x <= b1.xmax && ps[j1].x <= b2.xmax;
  }

  /** In a sorted sequence the box bounds every point. */
  lemma {:induction false} BoxBoundsSorted(ps: seq<Point>, b: Bounds)
    requires BoxOf(ps, b) && SortedBySweep(ps)
    ensures forall k :: 0 <= k < |ps| ==> b.xmin <= ps[k].x <= b.xmax && b.ymin <= ps[k].y <= b.ymax
  {
    forall k | 0 <= k < |ps|
      ensures b.ymin <= ps[k].y <= b.ymax
    {
      SortedYBounds(ps, k);
    }
  }

  /**
   * The bounds step of readsites, run on the sorted array: x bounds by a scan,
   * y bounds read off the first and last site. With no sites the globals are
   * left alone, which is modelled as None.
   */
  method SiteBounds(sites: seq<Site>) returns (b: Option<Bounds>)
    ensures b.None? <==> |sites| == 0
    ensures b.Some? ==>
      && (forall i :: 0 <= i < |sites| ==> b.value.xmin <= sites[i].coord.x <= b.value.xmax)
      && (exists i :: 0 <= i < |sites| && sites[i].coord.x == b.value.xmin)
      && (exists i :: 0 <= i < |sites| && sites[i].coord.x == b.value.xmax)
      && b.value.ymin == sites[0].coord.y && b.value.ymax == sites[|sites| - 1].coord.y
    ensures b.Some? ==> BoxOf(Coords(sites), b.value)
    ensures b.Some? && SortedBySweep(Coords(sites)) ==>
      forall i :: 0 <= i < |sites| ==> b.value.ymin <= sites[i].coord.y <= b.value.ymax
  {
    if |sites| == 0 {
      return None;
    }
    var xmin := sites[0].coord.x;
    var xmax := sites[0].coord.x;
    ghost var imin, imax := 0, 0;
    var i := 1;
    while i < |sites|
      invariant 1 <= i <= |sites|
      invariant forall k :: 0 <= k < i ==> xmin <= sites[k].coord.x <= xmax
      invariant 0 <= imin < i && sites[imin].coord.x == xmin
      invariant 0 <= imax < i && sites[imax].coord.x == xmax
    {
      if sites[i].coord.x < xmin {
        xmin, imin := sites[i].coord.x, i;
      }
      if sites[i].coord.x > xmax {
        xmax, imax := sites[i].coord.x, i;
      }
      i := i + 1;
    }
    b := Some(Bounds(xmin, xmax, sites[0].coord.y, sites[|sites| - 1].coord.y));
    if SortedBySweep(Coords(sites)) {
      forall k | 0 <= k < |sites|
        ensures b.value.ymin <= sites[k].coord.y <= b.value.ymax
      {
        SortedYBounds(Coords(sites), k);
      }
    }
  }
}
