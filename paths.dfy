/**
 * The path pipeline run on a found path: `simplify_path`, `interpolate_path`
 * with `interpolate_segment`, and the two `smooth_path` variants (the
 * angle-threshold one of dynamic_RRT_star_map1.py and mod_rrt_map2.py, the
 * collision-checking one of mod_rrt_map1.py).
 */
module Paths {
  import opened Geometry

  // ---------------------------------------------------------------------
  // Subsequences
  // ---------------------------------------------------------------------

  /** The elements of s whose flag in keep is set, in their original order. */
  function Select<T>(s: seq<T>, keep: seq<bool>): (r: seq<T>)
    requires |keep| == |s|
    ensures |r| <= |s|
  {
    if |s| == 0 then []
    else Select(s[..|s| - 1], keep[..|s| - 1]) + (if keep[|s| - 1] then [s[|s| - 1]] else [])
  }

  /** a is obtained from b by dropping some elements and keeping the order of the rest. */
  ghost predicate IsSubseq<T>(a: seq<T>, b: seq<T>)
  {
    exists keep :: |keep| == |b| && Select(b, keep) == a
  }

  lemma {:induction false} SelectAppend<T>(a: seq<T>, ka: seq<bool>, b: seq<T>, kb: seq<bool>)
    requires |ka| == |a| && |kb| == |b|
    ensures Select(a + b, ka + kb) == Select(a, ka) + Select(b, kb)
    decreases |b|
  {
    if |b| > 0 {
      var n := |b| - 1;
      assert (a + b)[..|a + b| - 1] == a + b[..n];
      assert (ka + kb)[..|a + b| - 1] == ka + kb[..n];
      SelectAppend(a, ka, b[..n], kb[..n]);
    } else {
      assert a + b == a && ka + kb == ka;
    }
  }

  /** Keeping the two ends and a selection of the interior gives a subsequence. */
  lemma EndsAroundSelection<T>(s: seq<T>, keep: seq<bool>)
    requires |s| >= 2 && |keep| == |s| - 2
    ensures IsSubseq([s[0]] + Select(s[1..|s| - 1], keep) + [s[|s| - 1]], s)
  {
    var n := |s|;
    var all := [true] + keep + [true];
    assert s == [s[0]] + s[1..n - 1] + [s[n - 1]];
    SelectAppend([s[0]], [true], s[1..n - 1], keep);
    SelectAppend([s[0]] + s[1..n - 1], [true] + keep, [s[n - 1]], [true]);
    assert Select([s[0]], [true]) == [s[0]];
    assert Select([s[n - 1]], [true]) == [s[n - 1]];
    assert Select(s, all) == [s[0]] + Select(s[1..n - 1], keep) + [s[n - 1]];
  }

  /** A subsequence is never longer than the sequence it is taken from. */
  lemma SubseqNoLonger<T>(a: seq<T>, b: seq<T>)
    requires IsSubseq(a, b)
    ensures |a| <= |b|
  {
    var keep :| |keep| == |b| && Select(b, keep) == a;
  }

  // ---------------------------------------------------------------------
  // smooth_path, angle version (dynamic_RRT_star_map1.py, mod_rrt_map2.py)
  // ---------------------------------------------------------------------

  /**
   * The interior points the angle test keeps. `deviates(first, last, p)`
   * stands for `abs(atan2(last - first) - atan2(p - first)) > pi / 30`.
   */
  function AngleKeep(path: seq<Point>, deviates: (Point, Point, Point) -> bool): (keep: seq<bool>)
    requires |path| >= 2
    ensures |keep| == |path| - 2
  {
    seq(|path| - 2, k requires 0 <= k < |path| - 2 => deviates(path[0], path[|path| - 1], path[k + 1]))
  }

  method SmoothByAngle(path: seq<Point>, deviates: (Point, Point, Point) -> bool) returns (smoothed: seq<Point>)
    requires |path| >= 1
    ensures |path| == 1 ==> smoothed == [path[0], path[0]]
    ensures |path| >= 2 ==>
              smoothed == [path[0]] + Select(path[1..|path| - 1], AngleKeep(path, deviates)) + [path[|path| - 1]]
    ensures |path| >= 2 ==> IsSubseq(smoothed, path)
  {
    var n := |path|;
    smoothed := [path[0]];
    if n >= 2 {
      var middle := KeepDeviating(path, deviates);
      smoothed := smoothed + middle;
      EndsAroundSelection(path, AngleKeep(path, deviates));
    }
    smoothed := smoothed + [path[n - 1]];
  }

  /** The loop over the inner points of `smooth_path`: keep those that deviate. */
  method KeepDeviating(path: seq<Point>, deviates: (Point, Point, Point) -> bool) returns (middle: seq<Point>)
    requires |path| >= 2
    ensures middle == Select(path[1..|path| - 1], AngleKeep(path, deviates))
  {
    var n := |path|;
    ghost var keep := AngleKeep(path, deviates);
    middle := [];
    var i := 1;
    while i < n - 1
      invariant 1 <= i <= n - 1 && middle == Select(path[1..i], keep[..i - 1])
    {
      if deviates(path[0], path[n - 1], path[i]) {
        middle := middle + [path[i]];
      }
      assert path[1..i + 1][..i - 1] == path[1..i];
      assert keep[..i][..i - 1] == keep[..i - 1];
      i := i + 1;
    }
    assert path[1..n - 1] == path[1..n - 1][..n - 2] && keep == keep[..n - 2];
  }

  // ---------------------------------------------------------------------
  // smooth_path, collision version (mod_rrt_map1.py)
  // ---------------------------------------------------------------------

  /**
   * No segment from path[i] to path[j] or to any point after it is flagged
   * by `line_intersects_obstacles`.
   */
  predicate ClearFrom(path: seq<Point>, obstacles: seq<Obstacle>, i: nat, j: nat)
    requires i < |path| && AllRects(obstacles)
    decreases |path| - j
  {
    j >= |path| || (!AnySegmentHit(obstacles, path[i], path[j]) && ClearFrom(path, obstacles, i, j + 1))
  }

  /** No segment from path[i] to a later point is flagged. */
  predicate ClearToLater(path: seq<Point>, obstacles: seq<Obstacle>, i: nat)
    requires i < |path| && AllRects(obstacles)
  {
    ClearFrom(path, obstacles, i, i + 1)
  }

  lemma {:induction false} ClearFromMeans(path: seq<Point>, obstacles: seq<Obstacle>, i: nat, j: nat)
    requires i < |path| && AllRects(obstacles)
    ensures ClearFrom(path, obstacles, i, j) <==>
              forall m :: j <= m < |path| ==> !AnySegmentHit(obstacles, path[i], path[m])
    decreases |path| - j
  {
    if j < |path| {
      ClearFromMeans(path, obstacles, i, j + 1);
    }
  }

  function CollisionKeep(path: seq<Point>, obstacles: seq<Obstacle>): (keep: seq<bool>)
    requires |path| >= 2 && AllRects(obstacles)
    ensures |keep| == |path| - 2
  {
    seq(|path| - 2, k requires 0 <= k < |path| - 2 => ClearToLater(path, obstacles, k + 1))
  }

  method SmoothByCollision(path: seq<Point>, obstacles: seq<Obstacle>) returns (smoothed: seq<Point>)
    requires |path| >= 1 && AllRects(obstacles)
    ensures |path| == 1 ==> smoothed == [path[0], path[0]]
    ensures |path| >= 2 ==>
              smoothed == [path[0]] + Select(path[1..|path| - 1], CollisionKeep(path, obstacles)) + [path[|path| - 1]]
    ensures |path| >= 2 ==> IsSubseq(smoothed, path)
  {
    var n := |path|;
    smoothed := [path[0]];
    if n >= 2 {
      var middle := KeepClear(path, obstacles);
      smoothed := smoothed + middle;
      EndsAroundSelection(path, CollisionKeep(path, obstacles));
    }
    smoothed := smoothed + [path[n - 1]];
  }

  /**
   * The outer loop of the collision version: for each interior point, scan
   * the later points and keep the point when no segment to them is flagged.
   */
  method KeepClear(path: seq<Point>, obstacles: seq<Obstacle>) returns (middle: seq<Point>)
    requires |path| >= 2 && AllRects(obstacles)
    ensures middle == Select(path[1..|path| - 1], CollisionKeep(path, obstacles))
  {
    var n := |path|;
    ghost var keep := CollisionKeep(path, obstacles);
    middle := [];
    var i := 1;
    while i < n - 1
      invariant 1 <= i <= n - 1 && middle == Select(path[1..i], keep[..i - 1])
    {
      var intersects := ScanLater(path, obstacles, i);
      if !intersects {
        middle := middle + [path[i]];
      }
      assert path[1..i + 1][..i - 1] == path[1..i];
      assert keep[..i][..i - 1] == keep[..i - 1];
      i := i + 1;
    }
    assert path[1..n - 1] == path[1..n - 1][..n - 2] && keep == keep[..n - 2];
  }

  /** The inner loop of the collision version: stop at the first later point whose segment is flagged. */
  method ScanLater(path: seq<Point>, obstacles: seq<Obstacle>, i: nat) returns (intersects: bool)
    requires i < |path| && AllRects(obstacles)
    ensures intersects == !ClearToLater(path, obstacles, i)
  {
    intersects := false;
    var j := i + 1;
    while j < |path|
      invariant i + 1 <= j <= |path|
      invariant ClearToLater(path, obstacles, i) == ClearFrom(path, obstacles, i, j)
    {
      if AnySegmentHit(obstacles, path[i], path[j]) {
        intersects := true;
        return;
      }
      j := j + 1;
    }
  }

  /** An interior point kept by the collision version has an unflagged segment to every later point. */
  lemma CollisionKeptPointsAreClear(path: seq<Point>, obstacles: seq<Obstacle>, k: nat, j: nat)
    requires |path| >= 2 && AllRects(obstacles)
    requires k < |path| - 2 && CollisionKeep(path, obstacles)[k] && k + 1 < j < |path|
    ensures !AnySegmentHit(obstacles, path[k + 1], path[j])
  {
    ClearFromMeans(path, obstacles, k + 1, k + 2);
  }

  // ---------------------------------------------------------------------
  // simplify_path
  // ---------------------------------------------------------------------

  /**
   * The interior points simplify_path keeps from index i on, given the last
   * kept point. As written, path[i] is kept when the shortcut from the
   * last kept point to path[i + 1] is NOT flagged (`keepOnHit` false); the
   * corrected rule keeps it exactly when the shortcut IS flagged.
   */
  function Kept(path: seq<Point>, r: Rect, last: Point, i: nat, keepOnHit: bool): seq<Point>
    decreases |path| - i
  {
    if i + 1 >= |path| then []
    else if LineIntersectsRect(last, path[i + 1], r) == keepOnHit then [path[i]] + Kept(path, r, path[i], i + 1, keepOnHit)
    else Kept(path, r, last, i + 1, keepOnHit)
  }

  function Simplified(path: seq<Point>, r: Rect, keepOnHit: bool): (s: seq<Point>)
    requires |path| >= 1
    ensures |s| >= 2 && s[0] == path[0] && s[|s| - 1] == path[|path| - 1]
  {
    [path[0]] + Kept(path, r, path[0], 1, keepOnHit) + [path[|path| - 1]]
  }

  /**
   * `simplify_path` as written. The rectangle is the source's
   * `DYNAMIC_OBSTACLES[0]`, passed in; the source fails with an IndexError
   * on an empty path, hence the requirement of one point.
   */
  method SimplifyPath(path: seq<Point>, rect: Rect) returns (simplified: seq<Point>)
    requires |path| >= 1
    ensures simplified == Simplified(path, rect, false)
  {
    simplified := [path[0]];
    var i := 1;
    while i < |path| - 1
      invariant 1 <= i
      invariant |simplified| >= 1
      invariant simplified + Kept(path, rect, simplified[|simplified| - 1], i, false) ==
                [path[0]] + Kept(path, rect, path[0], 1, false)
    {
      if !LineIntersectsRect(simplified[|simplified| - 1], path[i + 1], rect) {
        simplified := simplified + [path[i]];
      }
      i := i + 1;
    }
    simplified := simplified + [path[|path| - 1]];
  }

  /** Putting the same element in front of both keeps a subsequence a subsequence, whether or not it is kept. */
  lemma SubseqCons<T>(x: T, keepIt: bool, a: seq<T>, b: seq<T>)
    requires IsSubseq(a, b)
    ensures IsSubseq((if keepIt then [x] else []) + a, [x] + b)
  {
    var keep :| |keep| == |b| && Select(b, keep) == a;
    SelectAppend([x], [keepIt], b, keep);
    assert Select([x], [keepIt]) == if keepIt then [x] else [];
  }

  lemma {:induction false} KeptIsSubseq(path: seq<Point>, r: Rect, last: Point, i: nat, keepOnHit: bool)
    requires 1 <= i <= |path| - 1
    ensures IsSubseq(Kept(path, r, last, i, keepOnHit), path[i..|path| - 1])
    decreases |path| - i
  {
    var n := |path|;
    if i + 1 >= n {
      assert Select(path[i..n - 1], []) == [];
    } else {
      var keepHere := LineIntersectsRect(last, path[i + 1], r) == keepOnHit;
      var next := if keepHere then path[i] else last;
      KeptIsSubseq(path, r, next, i + 1, keepOnHit);
      SubseqCons(path[i], keepHere, Kept(path, r, next, i + 1, keepOnHit), path[i + 1..n - 1]);
      assert path[i..n - 1] == [path[i]] + path[i + 1..n - 1];
    }
  }

  /** Either rule keeps the first and last points and returns a subsequence of a path of two or more points. */
  lemma SimplifiedIsSubseq(path: seq<Point>, r: Rect, keepOnHit: bool)
    requires |path| >= 2
    ensures IsSubseq(Simplified(path, r, keepOnHit), path)
  {
    var n := |path|;
    KeptIsSubseq(path, r, path[0], 1, keepOnHit);
    var keep :| |keep| == n - 2 && Select(path[1..n - 1], keep) == Kept(path, r, path[0], 1, keepOnHit);
    EndsAroundSelection(path, keep);
  }

  /** No consecutive pair of points is flagged against the rectangle. */
  predicate ClearAgainst(path: seq<Point>, r: Rect)
  {
    forall k :: 0 <= k < |path| - 1 ==> !LineIntersectsRect(path[k], path[k + 1], r)
  }

  /**
   * As written, simplify_path can turn a path whose every segment is clear
   * into one with a flagged segment: B is dropped precisely because the
   * shortcut A-C is flagged.
   */
  lemma SimplifyAsWrittenCutsCorner()
    ensures var path := [Point(0.0, 0.0), Point(0.0, 10.0), Point(10.0, 10.0)];
            var r := Rect(4.0, 4.0, 2.0, 2.0);
            ClearAgainst(path, r) &&
            Simplified(path, r, false) == [Point(0.0, 0.0), Point(10.0, 10.0)] &&
            !ClearAgainst(Simplified(path, r, false), r)
  {
    var path := [Point(0.0, 0.0), Point(0.0, 10.0), Point(10.0, 10.0)];
    var r := Rect(4.0, 4.0, 2.0, 2.0);
    assert LineIntersectsRect(path[0], path[2], r);
    assert Kept(path, r, path[0], 2, false) == [];
    assert Kept(path, r, path[0], 1, false) == [];
  }

  lemma {:induction false} KeptCorrectedStaysClear(path: seq<Point>, r: Rect, last: Point, i: nat)
    requires 1 <= i <= |path| - 1 && ClearAgainst(path, r)
    requires !LineIntersectsRect(last, path[i], r)
    ensures ClearAgainst([last] + Kept(path, r, last, i, true) + [path[|path| - 1]], r)
    decreases |path| - i
  {
    var n := |path|;
    if i + 1 >= n {
      assert [last] + Kept(path, r, last, i, true) + [path[n - 1]] == [last, path[i]];
    } else if LineIntersectsRect(last, path[i + 1], r) {
      KeptCorrectedStaysClear(path, r, path[i], i + 1);
      var tail := [path[i]] + Kept(path, r, path[i], i + 1, true) + [path[n - 1]];
      assert [last] + Kept(path, r, last, i, true) + [path[n - 1]] == [last] + tail;
      ClearCons(last, tail, r);
    } else {
      KeptCorrectedStaysClear(path, r, last, i + 1);
    }
  }

  lemma ClearCons(x: Point, s: seq<Point>, r: Rect)
    requires |s| >= 1 && !LineIntersectsRect(x, s[0], r) && ClearAgainst(s, r)
    ensures ClearAgainst([x] + s, r)
  {
    var t := [x] + s;
    forall k | 0 <= k < |t| - 1
      ensures !LineIntersectsRect(t[k], t[k + 1], r)
    {
      if k > 0 {
        assert t[k] == s[k - 1] && t[k + 1] == s[k];
      }
    }
  }

  /**
   * With the keep condition the other way round, a path whose segments
   * are all clear of the rectangle simplifies to a path whose segments are
   * all clear of it.
   */
  lemma SimplifyCorrectedKeepsClear(path: seq<Point>, r: Rect)
    requires |path| >= 2 && ClearAgainst(path, r)
    ensures ClearAgainst(Simplified(path, r, true), r)
  {
    assert !LineIntersectsRect(path[0], path[1], r);
    KeptCorrectedStaysClear(path, r, path[0], 1);
  }

  // ---------------------------------------------------------------------
  // interpolate_segment and interpolate_path
  // ---------------------------------------------------------------------

  /** (1 - t) * p1 + t * p2, coordinate-wise. */
  function Lerp(p1: Point, p2: Point, t: real): Point
  {
    Point(Mul(1.0 - t, p1.x) + Mul(t, p2.x), Mul(1.0 - t, p1.y) + Mul(t, p2.y))
  }

  /** q lies in the bounding box of p1 and p2. */
  predicate InBox(q: Point, p1: Point, p2: Point)
  {
    Min(p1.x, p2.x) <= q.x <= Max(p1.x, p2.x) && Min(p1.y, p2.y) <= q.y <= Max(p1.y, p2.y)
  }

  lemma LerpBetween(a: real, b: real, t: real)
    requires 0.0 <= t <= 1.0
    ensures Min(a, b) <= Mul(1.0 - t, a) + Mul(t, b) <= Max(a, b)
  {
    assert Mul(1.0 - t, a) + Mul(t, b) == a + Mul(t, b - a);
    if a <= b {
      MulLeMono(0.0, t, b - a);
      MulLeMono(t, 1.0, b - a);
    } else {
      MulLeMono(0.0, t, a - b);
      MulLeMono(t, 1.0, a - b);
      assert Mul(t, b - a) == -Mul(t, a - b);
    }
  }

  /**
   * Ten points at t = k / 9 for k = 0..9 (`np.linspace(0, 1, 10)`): the
   * first is p1, the last p2, and every one lies between them.
   */
  function InterpolateSegment(p1: Point, p2: Point): (points: seq<Point>)
    ensures |points| == 10 && points[0] == p1 && points[9] == p2
    ensures forall k :: 0 <= k < 10 ==> InBox(points[k], p1, p2)
  {
    var points := seq(10, k requires 0 <= k < 10 => Lerp(p1, p2, k as real / 9.0));
    forall k | 0 <= k < 10
      ensures InBox(points[k], p1, p2)
    {
      LerpBetween(p1.x, p2.x, k as real / 9.0);
      LerpBetween(p1.y, p2.y, k as real / 9.0);
    }
    points
  }

  /** One block of ten points per consecutive pair, concatenated in order. */
  method InterpolatePath(path: seq<Point>) returns (interpolated: seq<Point>)
    ensures |interpolated| == if |path| == 0 then 0 else 10 * (|path| - 1)
    ensures forall i :: 0 <= i < |path| - 1 ==>
              interpolated[10 * i..10 * i + 10] == InterpolateSegment(path[i], path[i + 1])
  {
    interpolated := [];
    var i := 0;
    while i < |path| - 1
      invariant 0 <= i <= if |path| == 0 then 0 else |path| - 1
      invariant |interpolated| == 10 * i
      invariant forall k :: 0 <= k < i ==>
                  interpolated[10 * k..10 * k + 10] == InterpolateSegment(path[k], path[k + 1])
    {
      var before := interpolated;
      interpolated := interpolated + InterpolateSegment(path[i], path[i + 1]);
      assert forall k :: 0 <= k < i ==> interpolated[10 * k..10 * k + 10] == before[10 * k..10 * k + 10];
      assert interpolated[10 * i..10 * i + 10] == InterpolateSegment(path[i], path[i + 1]);
      i := i + 1;
    }
  }

  /** The interpolated path starts at the path's first point and ends at its last. */
  lemma InterpolatedEnds(path: seq<Point>, interpolated: seq<Point>)
    requires |path| >= 2
    requires |interpolated| == 10 * (|path| - 1)
    requires forall i :: 0 <= i < |path| - 1 ==>
               interpolated[10 * i..10 * i + 10] == InterpolateSegment(path[i], path[i + 1])
    ensures interpolated[0] == path[0] && interpolated[|interpolated| - 1] == path[|path| - 1]
  {
    var n := |path|;
    assert interpolated[0..10] == InterpolateSegment(path[0], path[1]);
    assert interpolated[10 * (n - 2)..10 * (n - 2) + 10] == InterpolateSegment(path[n - 2], path[n - 1]);
    assert interpolated[|interpolated| - 1] == interpolated[10 * (n - 2)..10 * (n - 2) + 10][9];
  }

  /**
   * The post-processing of dynamic_RRT_star_map1.py's main loop: interpolate
   * the found path ten points per segment, then smooth that with the angle
   * test; the smoothed path is a subsequence of the interpolated one.
   */
  method PostProcess(path: seq<Point>, deviates: (Point, Point, Point) -> bool)
    returns (interpolated: seq<Point>, smoothed: seq<Point>)
    requires |path| >= 2
    ensures |interpolated| == 10 * (|path| - 1)
    ensures forall i :: 0 <= i < |path| - 1 ==>
              interpolated[10 * i..10 * i + 10] == InterpolateSegment(path[i], path[i + 1])
    ensures smoothed == [interpolated[0]] + Select(interpolated[1..|interpolated| - 1], AngleKeep(interpolated, deviates))
                        + [interpolated[|interpolated| - 1]]
    ensures IsSubseq(smoothed, interpolated)
    ensures |smoothed| >= 2 && smoothed[0] == path[0] && smoothed[|smoothed| - 1] == path[|path| - 1]
    ensures |smoothed| <= 10 * (|path| - 1)
  {
    interpolated := InterpolatePath(path);
    InterpolatedEnds(path, interpolated);
    smoothed := SmoothByAngle(interpolated, deviates);
    SubseqNoLonger(smoothed, interpolated);
  }
}
