// Points, the (y, x) site order and the sweep loop's choice between a site
// event and a circle event. The floating-point geometry of the engine
// (bisector coefficients, line intersection, the right-of test) is not part
// of this module; the sweep works over an abstract `rightOf` oracle instead.
module Geometry {

  /** A planar point; the coordinates of the source are doubles. */
  datatype Point = Point(x: real, y: real)

  /** Option, used where the source returns a nullable pointer. */
  datatype Option<T> = None | Some(value: T)

  /** Reference order of the sweep: lower y first, then lower x. */
  ghost predicate SweepBefore(a: Point, b: Point)
  {
    a.y < b.y || (a.y == b.y && a.x < b.x)
  }

  /** The comparator handed to qsort: a three-way lexicographic compare on (y, x). */
  function Scomp(s1: Point, s2: Point): (r: int)
    ensures r == -1 || r == 0 || r == 1
    ensures r == 0 <==> s1 == s2
    ensures r == -1 <==> SweepBefore(s1, s2)
    ensures r == 1 <==> SweepBefore(s2, s1)
  {
    if s1.y < s2.y then -1
    else if s1.y > s2.y then 1
    else if s1.x < s2.x then -1
    else if s1.x > s2.x then 1
    else 0
  }

  /** Scomp is antisymmetric and transitive: it is a total order on points. */
  lemma ScompTotalOrder(a: Point, b: Point, c: Point)
    ensures Scomp(a, b) == -Scomp(b, a)
    ensures Scomp(a, b) <= 0 && Scomp(b, c) <= 0 ==> Scomp(a, c) <= 0
    ensures Scomp(a, b) <= 0 || Scomp(b, a) <= 0
  {
  }

  /** Sorted as qsort with Scomp leaves an array. */
  ghost predicate SortedBySweep(s: seq<Point>)
  {
    forall i, j :: 0 <= i < j < |s| ==> Scomp(s[i], s[j]) <= 0
  }

  /** In a sweep-sorted sequence the first point has the least y and the last the greatest. */
  lemma {:induction false} SortedYBounds(s: seq<Point>, k: int)
    requires SortedBySweep(s) && 0 <= k < |s|
    ensures s[0].y <= s[k].y <= s[|s| - 1].y
  {
    if k > 0 {
      assert Scomp(s[0], s[k]) <= 0;
    }
    if k < |s| - 1 {
      assert Scomp(s[k], s[|s| - 1]) <= 0;
    }
  }

  /** What one iteration of the sweep loop does next. */
  datatype Event = SiteEvent | CircleEvent | Finished

  /**
   * The test at the head of the sweep loop: the next input site is processed
   * only when it is strictly before the queue minimum (y, then x); on an exact
   * tie the circle event wins. `queueMin` is None when the queue is empty.
   */
  function SelectEvent(newsite: Option<Point>, queueMin: Option<Point>): (e: Event)
    ensures e == SiteEvent <==>
      newsite.Some? && (queueMin.None? || Scomp(newsite.value, queueMin.value) == -1)
    ensures e == CircleEvent <==>
      queueMin.Some? && (newsite.None? || Scomp(newsite.value, queueMin.value) >= 0)
    ensures e == Finished <==> newsite.None? && queueMin.None?
  {
    if newsite.Some? && (queueMin.None?
                         || newsite.value.y < queueMin.value.y
                         || (newsite.value.y == queueMin.value.y && newsite.value.x < queueMin.value.x))
    then SiteEvent
    else if queueMin.Some? then CircleEvent
    else Finished
  }

  /** A site that coincides with the queue minimum waits for the circle event. */
  lemma TieGoesToCircle(p: Point)
    ensures SelectEvent(Some(p), Some(p)) == CircleEvent
  {
  }

  /** A Delaunay triangle as three input-site numbers. */
  datatype Triple = Triple(a: int, b: int, c: int)

  /**
   * C converts a double to int by truncation toward zero; Dafny's Floor
   * rounds down, so negative values are handled separately.
   */
  function Trunc(r: real): (n: int)
    ensures r >= 0.0 ==> n as real <= r < n as real + 1.0
    ensures r < 0.0 ==> n as real - 1.0 < r <= n as real
  {
    if r >= 0.0 then r.Floor else -((-r).Floor)
  }
}
