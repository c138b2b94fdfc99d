/**
 * The node store shared by every planner: a node is a point, an optional
 * parent reference (an index into the store, standing for the Python
 * object reference) and a cost. This module holds the parent walk that
 * `draw_final_path` and `path_intersects_obstacle` perform and the
 * nearest-node search done by `min(nodes, key=...)`.
 */
module Trees {
  import opened Geometry

  datatype Option<T> = None | Some(value: T)

  datatype Node = Node(point: Point, parent: Option<nat>, cost: real)

  /**
   * Every parent reference points into the store and has a strictly
   * smaller rank. The rank is a termination measure for the parent walk:
   * the reactive planners use the node's own index, RRT* a count derived
   * from (cost, creation order).
   */
  ghost predicate Ranked(nodes: seq<Node>, rank: seq<nat>)
  {
    |rank| == |nodes| &&
    forall i :: 0 <= i < |nodes| && nodes[i].parent.Some? ==>
      nodes[i].parent.value < |nodes| && rank[nodes[i].parent.value] < rank[i]
  }

  /** The points met when following parent links from node i until a node without a parent. */
  function PathFrom(nodes: seq<Node>, rank: seq<nat>, i: nat): (path: seq<Point>)
    requires Ranked(nodes, rank) && i < |nodes|
    ensures |path| >= 1 && path[0] == nodes[i].point
    decreases rank[i]
  {
    match nodes[i].parent
    case None => [nodes[i].point]
    case Some(j) => [nodes[i].point] + PathFrom(nodes, rank, j)
  }

  /**
   * The `while current_node:` walk: collect the current node's point, then
   * move to its parent, until there is none.
   */
  method WalkToRoot(nodes: seq<Node>, ghost rank: seq<nat>, i: nat) returns (path: seq<Point>)
    requires Ranked(nodes, rank) && i < |nodes|
    ensures path == PathFrom(nodes, rank, i)
  {
    path := [];
    var current: Option<nat> := Some(i);
    while current.Some?
      invariant current.Some? ==>
                  current.value < |nodes| &&
                  path + PathFrom(nodes, rank, current.value) == PathFrom(nodes, rank, i)
      invariant current.None? ==> path == PathFrom(nodes, rank, i)
      decreases if current.Some? then rank[current.value] + 1 else 0
    {
      var node := nodes[current.value];
      path := path + [node.point];
      current := node.parent;
    }
  }

  /** Every node without a parent sits at `root`. */
  ghost predicate RootsAt(nodes: seq<Node>, root: Point)
  {
    forall i :: 0 <= i < |nodes| && nodes[i].parent.None? ==> nodes[i].point == root
  }

  /** The walk always ends at a parentless node, hence at the root point. */
  lemma {:induction false} PathEndsAtRoot(nodes: seq<Node>, rank: seq<nat>, i: nat, root: Point)
    requires Ranked(nodes, rank) && i < |nodes| && RootsAt(nodes, root)
    ensures PathFrom(nodes, rank, i)[|PathFrom(nodes, rank, i)| - 1] == root
    decreases rank[i]
  {
    match nodes[i].parent
    case None =>
    case Some(j) =>
      PathEndsAtRoot(nodes, rank, j, root);
  }

  /** Every parent link satisfies `ok` as (child point, parent point). */
  ghost predicate EdgesSatisfy(nodes: seq<Node>, ok: (Point, Point) -> bool)
  {
    forall i :: 0 <= i < |nodes| && nodes[i].parent.Some? && nodes[i].parent.value < |nodes| ==>
      ok(nodes[i].point, nodes[nodes[i].parent.value].point)
  }

  /** Consecutive points of a walk are (child, parent) pairs, so they inherit every property of the links. */
  lemma {:induction false} PathEdges(nodes: seq<Node>, rank: seq<nat>, i: nat, ok: (Point, Point) -> bool)
    requires Ranked(nodes, rank) && i < |nodes| && EdgesSatisfy(nodes, ok)
    ensures forall k :: 0 <= k < |PathFrom(nodes, rank, i)| - 1 ==>
              ok(PathFrom(nodes, rank, i)[k], PathFrom(nodes, rank, i)[k + 1])
    decreases rank[i]
  {
    match nodes[i].parent
    case None =>
    case Some(j) =>
      PathEdges(nodes, rank, j, ok);
      var rest := PathFrom(nodes, rank, j);
      var path := PathFrom(nodes, rank, i);
      assert path == [nodes[i].point] + rest;
      forall k | 0 <= k < |path| - 1
        ensures ok(path[k], path[k + 1])
      {
        if k > 0 {
          assert path[k] == rest[k - 1] && path[k + 1] == rest[k];
        } else {
          assert path[1] == rest[0] == nodes[j].point;
          assert ok(nodes[i].point, nodes[nodes[i].parent.value].point);
        }
      }
  }

  /**
   * k is what `min(nodes, key=lambda node: distance(node.point, rand_point))`
   * picks: a point at the least distance from the sample, and the first
   * such point in list order.
   */
  predicate IsFirstNearest(points: seq<Point>, sample: Point, dist: (Point, Point) -> real, k: nat)
  {
    k < |points| &&
    (forall j :: 0 <= j < |points| ==> dist(points[k], sample) <= dist(points[j], sample)) &&
    (forall j :: 0 <= j < k ==> dist(points[j], sample) > dist(points[k], sample))
  }

  /** The first nearest point is unique, so the search is deterministic. */
  lemma FirstNearestUnique(points: seq<Point>, sample: Point, dist: (Point, Point) -> real, k1: nat, k2: nat)
    requires IsFirstNearest(points, sample, dist, k1) && IsFirstNearest(points, sample, dist, k2)
    ensures k1 == k2
  {
    var d1, d2 := dist(points[k1], sample), dist(points[k2], sample);
    assert d1 == d2;
  }

  /** A scan that replaces the best candidate only on a strictly smaller distance. */
  method FindNearest(points: seq<Point>, sample: Point, dist: (Point, Point) -> real) returns (k: nat)
    requires |points| > 0
    ensures IsFirstNearest(points, sample, dist, k)
  {
    k := 0;
    var best := dist(points[0], sample);
    for j := 1 to |points|
      invariant k < j && best == dist(points[k], sample)
      invariant forall i :: 0 <= i < j ==> best <= dist(points[i], sample)
      invariant forall i :: 0 <= i < k ==> dist(points[i], sample) > best
    {
      var d := dist(points[j], sample);
      if d < best {
        k, best := j, d;
      }
    }
  }

  /** The points of the nodes listed in ids, in the order of ids. */
  function PointsOf(nodes: seq<Node>, ids: seq<nat>): (points: seq<Point>)
    requires forall k :: 0 <= k < |ids| ==> ids[k] < |nodes|
    ensures |points| == |ids| && forall k :: 0 <= k < |ids| ==> points[k] == nodes[ids[k]].point
  {
    seq(|ids|, k requires 0 <= k < |ids| => nodes[ids[k]].point)
  }

  /** Rank by position: enough when every parent precedes its child. */
  function IndexRank(n: nat): (rank: seq<nat>)
    ensures |rank| == n && forall i :: 0 <= i < n ==> rank[i] == i
  {
    seq(n, i => i)
  }

  /**
   * The length of a walk [child, parent, grandparent, ...] measured link by
   * link as the planners add it up: dist(parent point, child point).
   */
  function PathLength(path: seq<Point>, dist: (Point, Point) -> real): real
  {
    if |path| < 2 then 0.0 else dist(path[1], path[0]) + PathLength(path[1..], dist)
  }

  /** `STEP_SIZE`: every planner grows its tree in steps of this length. */
  const STEP_SIZE: real := 20.0

  /** `steer` moves exactly STEP_SIZE away from its first argument. */
  ghost predicate Steers(steer: (Point, Point) -> Point)
  {
    forall a, s :: Dist2(a, steer(a, s)) == STEP_SIZE * STEP_SIZE
  }

  lemma StepDistinct(a: Point, b: Point)
    requires Dist2(a, b) == STEP_SIZE * STEP_SIZE
    ensures a != b
  {
    assert Dist2(a, a) == 0.0;
  }
}
