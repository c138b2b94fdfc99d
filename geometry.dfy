/**
 * Geometry of the planner's workspace: points, the two obstacle shapes
 * (axis-aligned rectangles and circles), the placement-overlap tests, the
 * point-in-obstacle tests and the two segment-against-obstacle tests.
 *
 * Coordinates are reals. Every comparison the planner makes against a
 * square root (`math.sqrt` inside `distance`) is written here in squared
 * form; the lemmas at the end of the module show that the squared form
 * agrees with the comparison against the Euclidean distance.
 */
module Geometry {

  datatype Point = Point(x: real, y: real)

  /** A rectangle with top-left corner (x, y), width w and height h. */
  datatype Rect = Rect(x: real, y: real, w: real, h: real)

  datatype Circle = Circle(cx: real, cy: real, r: real)

  datatype Obstacle = RectObs(rect: Rect) | CircleObs(circle: Circle)

  function Centre(c: Circle): Point { Point(c.cx, c.cy) }

  /** The product of two reals, kept behind a function so that squares stay atoms for the solver. */
  function Mul(a: real, b: real): real { a * b }

  function Sq(a: real): real { Mul(a, a) }

  /** Squared Euclidean distance. */
  function Dist2(p: Point, q: Point): real
  {
    Sq(p.x - q.x) + Sq(p.y - q.y)
  }

  function Min(a: real, b: real): real { if a <= b then a else b }
  function Max(a: real, b: real): real { if a >= b then a else b }

  /** What the tree code needs of a distance function: non-negative and symmetric. */
  ghost predicate IsDistance(dist: (Point, Point) -> real)
  {
    forall p, q :: dist(p, q) >= 0.0 && dist(p, q) == dist(q, p)
  }

  /** `dist` is the Euclidean distance: the non-negative square root of Dist2. */
  ghost predicate IsEuclidean(dist: (Point, Point) -> real)
  {
    forall p, q :: dist(p, q) >= 0.0 && Sq(dist(p, q)) == Dist2(p, q)
  }

  // ---------------------------------------------------------------------
  // Placement overlap (used when a dynamic obstacle is admitted)
  // ---------------------------------------------------------------------

  /** Separating-axis test on the x and y extents. */
  predicate RectOverlap(a: Rect, b: Rect)
  {
    a.x < b.x + b.w && a.x + a.w > b.x && a.y < b.y + b.h && a.y + a.h > b.y
  }

  predicate StrictlyInside(p: Point, r: Rect)
  {
    r.x < p.x < r.x + r.w && r.y < p.y < r.y + r.h
  }

  lemma RectOverlapSymmetric(a: Rect, b: Rect)
    ensures RectOverlap(a, b) == RectOverlap(b, a)
  {
  }

  /** For rectangles of positive size the test holds exactly when the open rectangles share a point. */
  lemma RectOverlapMeansSharedInterior(a: Rect, b: Rect)
    requires a.w > 0.0 && a.h > 0.0 && b.w > 0.0 && b.h > 0.0
    ensures RectOverlap(a, b) <==> exists p :: StrictlyInside(p, a) && StrictlyInside(p, b)
  {
    if RectOverlap(a, b) {
      var lo := Point(Max(a.x, b.x), Max(a.y, b.y));
      var hi := Point(Min(a.x + a.w, b.x + b.w), Min(a.y + a.h, b.y + b.h));
      var p := Point((lo.x + hi.x) / 2.0, (lo.y + hi.y) / 2.0);
      assert StrictlyInside(p, a) && StrictlyInside(p, b);
    }
  }

  /** The centre distance is below the sum of the radii (compared in squared form). */
  predicate CircleOverlap(a: Circle, b: Circle)
  {
    a.r + b.r > 0.0 && Dist2(Centre(a), Centre(b)) < Sq(a.r + b.r)
  }

  lemma CircleOverlapSymmetric(a: Circle, b: Circle)
    ensures CircleOverlap(a, b) == CircleOverlap(b, a)
  {
    Dist2Symmetric(Centre(a), Centre(b));
  }

  /** The point of the closed rectangle nearest to p: each coordinate clamped to the rectangle's extent. */
  function ClosestInRect(p: Point, r: Rect): (q: Point)
    ensures r.w >= 0.0 && r.h >= 0.0 ==> InRect(q, r, 0.0)
    ensures InRect(p, r, 0.0) ==> q == p
  {
    Point(Max(r.x, Min(p.x, r.x + r.w)), Max(r.y, Min(p.y, r.y + r.h)))
  }

  /** The clamped point is at least as close to p as any point of the closed rectangle. */
  lemma ClosestInRectIsClosest(p: Point, r: Rect, q: Point)
    requires InRect(q, r, 0.0)
    ensures Dist2(p, ClosestInRect(p, r)) <= Dist2(p, q)
  {
    var c := ClosestInRect(p, r);
    ClampCloser(p.x, r.x, r.x + r.w, q.x);
    ClampCloser(p.y, r.y, r.y + r.h, q.y);
  }

  lemma ClampCloser(v: real, lo: real, hi: real, u: real)
    requires lo <= u <= hi
    ensures Sq(v - Max(lo, Min(v, hi))) <= Sq(v - u)
  {
    var c := Max(lo, Min(v, hi));
    if v < lo {
      SqMono(c - v, u - v);
      SqNeg(c - v);
      SqNeg(u - v);
      assert -(c - v) == v - c && -(u - v) == v - u;
    } else if v > hi {
      SqMono(v - c, v - u);
    } else {
      SqPos(v - u);
    }
  }

  /** The circle's centre is closer to the rectangle than its radius (squared form, as written: `< cr**2`). */
  predicate CircleRectOverlap(c: Circle, r: Rect)
  {
    Dist2(Centre(c), ClosestInRect(Centre(c), r)) < Sq(c.r)
  }

  lemma CentreInsideRectOverlaps(c: Circle, r: Rect)
    requires c.r > 0.0 && InRect(Centre(c), r, 0.0)
    ensures CircleRectOverlap(c, r)
  {
    assert ClosestInRect(Centre(c), r) == Centre(c);
    SqMono(0.0, c.r);
  }

  // ---------------------------------------------------------------------
  // Point in obstacle, with an inflation clearance
  // ---------------------------------------------------------------------

  /** p lies in the closed rectangle inflated by `clearance` on every side. */
  predicate InRect(p: Point, r: Rect, clearance: real)
  {
    r.x - clearance <= p.x <= r.x + r.w + clearance &&
    r.y - clearance <= p.y <= r.y + r.h + clearance
  }

  /** The distance from p to the centre is at most r + clearance (squared form). */
  predicate InCircle(p: Point, c: Circle, clearance: real)
  {
    c.r + clearance >= 0.0 && Dist2(p, Centre(c)) <= Sq(c.r + clearance)
  }

  predicate Contains(o: Obstacle, p: Point, clearance: real)
  {
    match o
    case RectObs(r) => InRect(p, r, clearance)
    case CircleObs(c) => InCircle(p, c, clearance)
  }

  /** Some obstacle of the list contains p (the source's loop with an early `return True`). */
  predicate AnyContains(obs: seq<Obstacle>, p: Point, clearance: real)
  {
    exists i :: 0 <= i < |obs| && Contains(obs[i], p, clearance)
  }

  /** A larger clearance never frees a point that a smaller one blocks. */
  lemma AnyContainsMonotone(obs: seq<Obstacle>, p: Point, c1: real, c2: real)
    requires c1 <= c2
    ensures AnyContains(obs, p, c1) ==> AnyContains(obs, p, c2)
  {
    if AnyContains(obs, p, c1) {
      var i :| 0 <= i < |obs| && Contains(obs[i], p, c1);
      match obs[i]
      case RectObs(r) =>
      case CircleObs(c) =>
        SqMono(c.r + c1, c.r + c2);
      assert Contains(obs[i], p, c2);
    }
  }

  predicate AllRects(obs: seq<Obstacle>)
  {
    forall i :: 0 <= i < |obs| ==> obs[i].RectObs?
  }

  // ---------------------------------------------------------------------
  // Segment against obstacle
  // ---------------------------------------------------------------------

  /**
   * The conservative bounding-box test: the segment is flagged when the
   * low corner or the high corner of its bounding box lies in the closed
   * rectangle, or when the rectangle's low or high corner lies in the
   * segment's bounding box.
   */
  predicate LineIntersectsRect(p1: Point, p2: Point, r: Rect)
  {
    var left, right := Min(p1.x, p2.x), Max(p1.x, p2.x);
    var top, bottom := Min(p1.y, p2.y), Max(p1.y, p2.y);
    (r.x <= left <= r.x + r.w && r.y <= top <= r.y + r.h) ||
    (r.x <= right <= r.x + r.w && r.y <= bottom <= r.y + r.h) ||
    (left <= r.x <= right && top <= r.y <= bottom) ||
    (left <= r.x + r.w <= right && top <= r.y + r.h <= bottom)
  }

  lemma LineIntersectsRectSymmetric(p1: Point, p2: Point, r: Rect)
    ensures LineIntersectsRect(p1, p2, r) == LineIntersectsRect(p2, p1, r)
  {
  }

  /** A segment with both ends in the closed rectangle is always flagged. */
  lemma SegmentInsideRectIsFlagged(p1: Point, p2: Point, r: Rect)
    requires InRect(p1, r, 0.0) && InRect(p2, r, 0.0)
    ensures LineIntersectsRect(p1, p2, r)
  {
  }

  /** The test is only a heuristic: a segment straight through the middle of a rectangle is not flagged. */
  lemma LineIntersectsRectMissesCrossing()
    ensures InRect(Point(5.0, 5.0), Rect(0.0, 0.0, 10.0, 10.0), 0.0)
    ensures !LineIntersectsRect(Point(-5.0, 5.0), Point(15.0, 5.0), Rect(0.0, 0.0, 10.0, 10.0))
  {
  }

  /** The projection parameter of c onto the line through p1 and p2, clamped to [0, 1]. */
  function ProjectionParam(p1: Point, p2: Point, c: Point): (t: real)
    requires p1 != p2
    ensures 0.0 <= t <= 1.0
  {
    Dist2Positive(p2, p1);
    Max(0.0, Min(1.0, Dot(p1, p2, c) / Dist2(p2, p1)))
  }

  /** The dot product of c - p1 with p2 - p1. */
  function Dot(p1: Point, p2: Point, c: Point): real
  {
    Mul(c.x - p1.x, p2.x - p1.x) + Mul(c.y - p1.y, p2.y - p1.y)
  }

  lemma Dist2Positive(p: Point, q: Point)
    ensures Dist2(p, q) >= 0.0
    ensures p != q ==> Dist2(p, q) > 0.0
  {
    SqPos(p.x - q.x);
    SqPos(p.y - q.y);
  }

  /** The point p1 + t * (p2 - p1) of the line through p1 and p2. */
  function Along(p1: Point, p2: Point, t: real): Point
  {
    Point(p1.x + Mul(t, p2.x - p1.x), p1.y + Mul(t, p2.y - p1.y))
  }

  function NearestOnSegment(p1: Point, p2: Point, c: Point): Point
    requires p1 != p2
  {
    Along(p1, p2, ProjectionParam(p1, p2, c))
  }

  /**
   * The point of the segment nearest to the centre is within the radius.
   * The source divides by the squared segment length, so p1 and p2 must differ.
   */
  predicate LineIntersectsCircle(p1: Point, p2: Point, c: Point, radius: real)
    requires p1 != p2
  {
    radius >= 0.0 && Dist2(NearestOnSegment(p1, p2, c), c) <= Sq(radius)
  }

  /** q(t) = t*t*len2 - 2*t*dot: the squared distance to Along(t), less its value at t = 0. */
  function Quad(len2: real, dot: real, t: real): real
  {
    Mul(Sq(t), len2) - 2.0 * Mul(t, dot)
  }

  /** Squared distance from c to Along(p1, p2, t), expanded as a quadratic in t. */
  lemma SegmentDist2(p1: Point, p2: Point, c: Point, t: real)
    ensures Dist2(Along(p1, p2, t), c) == Quad(Dist2(p2, p1), Dot(p1, p2, c), t) + Dist2(c, p1)
  {
    var dx, dy := p2.x - p1.x, p2.y - p1.y;
    var fx, fy := c.x - p1.x, c.y - p1.y;
    var q := Along(p1, p2, t);
    assert q.x - c.x == Mul(t, dx) - fx && q.y - c.y == Mul(t, dy) - fy;
    SqDiff(Mul(t, dx), fx);
    SqDiff(Mul(t, dy), fy);
    SqProd(t, dx);
    SqProd(t, dy);
    MulAssoc(t, dx, fx);
    MulAssoc(t, dy, fy);
    MulDistribLeft(Sq(t), Sq(dx), Sq(dy));
    MulDistribLeft(t, Mul(fx, dx), Mul(fy, dy));
  }

  /** At the clamped minimiser the quadratic is no larger than at t = 0 or at t = 1. */
  lemma ClampedQuadraticMin(len2: real, dot: real)
    requires len2 > 0.0
    ensures var t := Max(0.0, Min(1.0, dot / len2));
            Quad(len2, dot, t) <= Quad(len2, dot, 0.0) &&
            Quad(len2, dot, t) <= Quad(len2, dot, 1.0)
  {
    var s := dot / len2;
    assert dot == Mul(s, len2);
    var t := Max(0.0, Min(1.0, s));
    if s <= 0.0 {
      MulLeMono(s, 0.0, len2);
    } else if s >= 1.0 {
      MulLeMono(1.0, s, len2);
    } else {
      assert Mul(t, dot) == Mul(Sq(t), len2);
      SqPos(t);
      MulSign(Sq(t), len2);
      var u := 1.0 - t;
      assert Quad(len2, dot, t) - Quad(len2, dot, 1.0) == -Mul(Sq(u), len2) by {
        SqDiff(1.0, t);
        MulDistrib(1.0 - 2.0 * t, Sq(t), len2);
        assert Sq(u) == 1.0 - 2.0 * t + Sq(t);
      }
      SqPos(u);
      MulSign(Sq(u), len2);
    }
  }

  /** The clamped projection is no farther from the centre than either endpoint. */
  lemma NearestOnSegmentIsCloser(p1: Point, p2: Point, c: Point)
    requires p1 != p2
    ensures Dist2(NearestOnSegment(p1, p2, c), c) <= Dist2(p1, c)
    ensures Dist2(NearestOnSegment(p1, p2, c), c) <= Dist2(p2, c)
  {
    Dist2Positive(p2, p1);
    ClampedQuadraticMin(Dist2(p2, p1), Dot(p1, p2, c));
    SegmentDist2(p1, p2, c, ProjectionParam(p1, p2, c));
    SegmentDist2(p1, p2, c, 0.0);
    SegmentDist2(p1, p2, c, 1.0);
    assert Along(p1, p2, 0.0) == p1 && Along(p1, p2, 1.0) == p2;
    Dist2Symmetric(p1, c);
    Dist2Symmetric(p2, c);
  }

  lemma Dist2Symmetric(p: Point, q: Point)
    ensures Dist2(p, q) == Dist2(q, p)
  {
    SqNeg(p.x - q.x);
    SqNeg(p.y - q.y);
    assert -(p.x - q.x) == q.x - p.x && -(p.y - q.y) == q.y - p.y;
  }

  /** A segment with an endpoint within the radius always intersects the circle. */
  lemma EndpointInCircleIntersects(p1: Point, p2: Point, c: Point, radius: real)
    requires p1 != p2 && radius >= 0.0
    requires Dist2(p1, c) <= Sq(radius) || Dist2(p2, c) <= Sq(radius)
    ensures LineIntersectsCircle(p1, p2, c, radius)
  {
    NearestOnSegmentIsCloser(p1, p2, c);
  }

  /** Dispatch of one obstacle against a segment, as in `intersects_dynamic_obstacle`. */
  predicate SegmentHits(o: Obstacle, p: Point, q: Point)
    requires p != q || o.RectObs?
  {
    match o
    case RectObs(r) => LineIntersectsRect(p, q, r)
    case CircleObs(c) => LineIntersectsCircle(p, q, Centre(c), c.r)
  }

  /** Some obstacle of the list is flagged against the segment p-q. */
  predicate AnySegmentHit(obs: seq<Obstacle>, p: Point, q: Point)
    requires p != q || AllRects(obs)
  {
    exists i :: 0 <= i < |obs| && SegmentHits(obs[i], p, q)
  }

  // ---------------------------------------------------------------------
  // Agreement of the squared forms with the Euclidean distance
  // ---------------------------------------------------------------------

  lemma MulSign(a: real, b: real)
    ensures a > 0.0 && b > 0.0 ==> Mul(a, b) > 0.0
    ensures a < 0.0 && b < 0.0 ==> Mul(a, b) > 0.0
    ensures a >= 0.0 && b >= 0.0 ==> Mul(a, b) >= 0.0
  {
  }

  /** A square is non-negative, and positive when its root is not zero. */
  lemma SqPos(a: real)
    ensures Sq(a) >= 0.0
    ensures a != 0.0 ==> Sq(a) > 0.0
  {
    MulSign(a, a);
  }

  lemma MulDistrib(a: real, b: real, c: real)
    ensures Mul(a - b, c) == Mul(a, c) - Mul(b, c)
    ensures Mul(a + b, c) == Mul(a, c) + Mul(b, c)
    ensures Mul(a, b) == Mul(b, a)
  {
  }

  lemma MulDistribLeft(a: real, b: real, c: real)
    ensures Mul(a, b + c) == Mul(a, b) + Mul(a, c)
  {
  }

  lemma MulLeMono(a: real, b: real, c: real)
    requires a <= b && c >= 0.0
    ensures Mul(a, c) <= Mul(b, c)
  {
    MulDistrib(b, a, c);
    MulSign(b - a, c);
  }

  lemma SqMono(a: real, b: real)
    requires 0.0 <= a <= b
    ensures Sq(a) <= Sq(b)
    ensures a < b ==> Sq(a) < Sq(b)
  {
    MulSign(b - a, b + a);
    assert Mul(b - a, b + a) == Sq(b) - Sq(a);
  }

  lemma SqNeg(a: real)
    ensures Sq(-a) == Sq(a)
  {
  }

  lemma SqDiff(a: real, b: real)
    ensures Sq(a - b) == Sq(a) - 2.0 * Mul(a, b) + Sq(b)
  {
  }

  lemma SqProd(t: real, d: real)
    ensures Sq(Mul(t, d)) == Mul(Sq(t), Sq(d))
  {
  }

  lemma MulAssoc(t: real, d: real, f: real)
    ensures Mul(Mul(t, d), f) == Mul(t, Mul(f, d))
  {
  }

  lemma SqrtAtMost(dist: (Point, Point) -> real, p: Point, q: Point, bound: real)
    requires IsEuclidean(dist)
    ensures (dist(p, q) <= bound) == (bound >= 0.0 && Dist2(p, q) <= Sq(bound))
  {
    var a := dist(p, q);
    assert a >= 0.0 && Sq(a) == Dist2(p, q);
    if a <= bound {
      SqMono(a, bound);
    } else if bound >= 0.0 {
      SqMono(bound, a);
    }
  }

  lemma SqrtBelow(dist: (Point, Point) -> real, p: Point, q: Point, bound: real)
    requires IsEuclidean(dist)
    ensures (dist(p, q) < bound) == (bound > 0.0 && Dist2(p, q) < Sq(bound))
  {
    var a := dist(p, q);
    assert a >= 0.0 && Sq(a) == Dist2(p, q);
    if a < bound {
      SqMono(a, bound);
    } else if bound > 0.0 {
      SqMono(bound, a);
    }
  }

  /** `circle_overlap`: the Euclidean centre distance is below r1 + r2. */
  lemma CircleOverlapMatchesDistance(dist: (Point, Point) -> real, a: Circle, b: Circle)
    requires IsEuclidean(dist)
    ensures CircleOverlap(a, b) == (dist(Centre(a), Centre(b)) < a.r + b.r)
  {
    SqrtBelow(dist, Centre(a), Centre(b), a.r + b.r);
  }

  /** The circle branch of `in_obstacle`: distance to the centre at most r + clearance. */
  lemma InCircleMatchesDistance(dist: (Point, Point) -> real, p: Point, c: Circle, clearance: real)
    requires IsEuclidean(dist)
    ensures InCircle(p, c, clearance) == (dist(Centre(c), p) <= c.r + clearance)
  {
    SqrtAtMost(dist, Centre(c), p, c.r + clearance);
    Dist2Symmetric(Centre(c), p);
  }

  /** `line_intersects_circle`: distance from the nearest segment point to the centre at most the radius. */
  lemma LineIntersectsCircleMatchesDistance(dist: (Point, Point) -> real, p1: Point, p2: Point, c: Point, radius: real)
    requires IsEuclidean(dist) && p1 != p2
    ensures LineIntersectsCircle(p1, p2, c, radius) == (dist(NearestOnSegment(p1, p2, c), c) <= radius)
  {
    SqrtAtMost(dist, NearestOnSegment(p1, p2, c), c, radius);
  }

  /** A Euclidean distance is a distance in the sense the tree code needs. */
  lemma EuclideanIsDistance(dist: (Point, Point) -> real)
    requires IsEuclidean(dist)
    ensures IsDistance(dist)
  {
    forall p, q ensures dist(p, q) == dist(q, p) {
      var a, b := dist(p, q), dist(q, p);
      Dist2Symmetric(p, q);
      assert Sq(a) == Sq(b) && a >= 0.0 && b >= 0.0;
      if a < b {
        SqMono(a, b);
      } else if a > b {
        SqMono(b, a);
      }
    }
  }
}
