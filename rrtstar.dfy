/**
 * The two RRT* planners, rrt_star_map1.py and rrt_star_map2.py: every
 * accepted step picks the cheapest parent among the nodes within
 * NEAR_RADIUS of the new point and then re-hangs any of those nodes below
 * the new node when that is cheaper for them.
 *
 * Re-hanging changes the parent and cost of existing nodes in place, so
 * node indices no longer grow along parent links. What keeps the parent
 * walk finite is a ghost key: every parent is strictly before its child in
 * the order (cost, stamp), where a stamp records when a node last got a
 * parent. The rank that bounds the walk is the number of nodes below a
 * node in that order.
 */
module RrtStar {
  import opened Geometry
  import opened Trees

  datatype Layout = Map1 | Map2

  const START: Point := Point(50.0, 550.0)
  const GOAL: Point := Point(750.0, 50.0)
  const NODE_RADIUS: real := 5.0
  /** The radius `find_near_nodes` is called with. */
  const NEAR_RADIUS: real := 50.0

  function Obstacles(l: Layout): seq<Obstacle>
  {
    match l
    case Map1 =>
      [RectObs(Rect(300.0, 200.0, 100.0, 100.0)), RectObs(Rect(500.0, 400.0, 100.0, 100.0)),
       RectObs(Rect(100.0, 300.0, 50.0, 50.0))]
    case Map2 =>
      [CircleObs(Circle(600.0, 400.0, 100.0)), RectObs(Rect(0.0, 200.0, 400.0, 50.0)),
       RectObs(Rect(0.0, 400.0, 400.0, 50.0)), RectObs(Rect(0.0, 100.0, 400.0, 50.0)),
       CircleObs(Circle(600.0, 100.0, 100.0))]
  }

  /** The centre of a rectangle, as a circle of radius zero. */
  function RectCentre(r: Rect): Circle
  {
    Circle(r.x + r.w / 2.0, r.y + r.h / 2.0, 0.0)
  }

  /**
   * The clearance filter of `extend_rrt_star`. On map 1 a point is refused
   * within clearance 30 plus NODE_RADIUS of a rectangle's centre. On map 2
   * `in_rect` ignores its clearance argument, and `in_circle` refuses a
   * point within the radius plus clearance 20 plus NODE_RADIUS.
   */
  predicate TooCloseTo(l: Layout, o: Obstacle, p: Point)
  {
    match l
    case Map1 => o.RectObs? && InCircle(p, RectCentre(o.rect), 30.0 + NODE_RADIUS)
    case Map2 =>
      match o
      case RectObs(r) => InRect(p, r, 0.0)
      case CircleObs(c) => InCircle(p, c, 20.0 + NODE_RADIUS)
  }

  predicate InClearanceZone(l: Layout, p: Point)
  {
    exists k :: 0 <= k < |Obstacles(l)| && TooCloseTo(l, Obstacles(l)[k], p)
  }

  /** A new point is kept when it passes the clearance filter and `in_obstacle`. */
  predicate Admissible(l: Layout, p: Point)
  {
    !InClearanceZone(l, p) && !AnyContains(Obstacles(l), p, 0.0)
  }

  /** On map 2 the clearance filter already refuses every point `in_obstacle` refuses. */
  lemma Map2ZoneCoversObstacles(p: Point)
    ensures AnyContains(Obstacles(Map2), p, 0.0) ==> InClearanceZone(Map2, p)
  {
    if AnyContains(Obstacles(Map2), p, 0.0) {
      var obs := Obstacles(Map2);
      var k :| 0 <= k < |obs| && Contains(obs[k], p, 0.0);
      match obs[k]
      case RectObs(r) =>
      case CircleObs(c) =>
        SqMono(c.r, c.r + 20.0 + NODE_RADIUS);
      assert TooCloseTo(Map2, obs[k], p);
    }
  }

  /** The map 1 filter in the source's own terms: Euclidean distance to the centre at most 35. */
  lemma Map1ZoneMatchesDistance(dist: (Point, Point) -> real, r: Rect, p: Point)
    requires IsEuclidean(dist)
    ensures TooCloseTo(Map1, RectObs(r), p) == (dist(p, Centre(RectCentre(r))) <= 35.0)
  {
    InCircleMatchesDistance(dist, p, RectCentre(r), 30.0 + NODE_RADIUS);
    EuclideanIsDistance(dist);
  }

  lemma StartAdmissible(l: Layout)
    ensures Admissible(l, START)
  {
    var obs := Obstacles(l);
    forall k | 0 <= k < |obs|
      ensures !TooCloseTo(l, obs[k], START) && !Contains(obs[k], START, 0.0)
    {
    }
  }

  // ---------------------------------------------------------------------
  // The acyclicity key
  // ---------------------------------------------------------------------

  /** Node j comes before node i in the order (cost, stamp). */
  ghost predicate KeyLess(nodes: seq<Node>, stamp: seq<nat>, j: int, i: int)
  {
    0 <= j < |nodes| && 0 <= i < |nodes| && |stamp| == |nodes| &&
    (nodes[j].cost < nodes[i].cost || (nodes[j].cost == nodes[i].cost && stamp[j] < stamp[i]))
  }

  ghost function Below(nodes: seq<Node>, stamp: seq<nat>, i: nat): set<nat>
  {
    set j: nat | j < |nodes| && KeyLess(nodes, stamp, j, i)
  }

  ghost function KeyRank(nodes: seq<Node>, stamp: seq<nat>): (rank: seq<nat>)
    ensures |rank| == |nodes|
  {
    seq(|nodes|, i requires 0 <= i < |nodes| => |Below(nodes, stamp, i)|)
  }

  /** The key order is strict, so a node has strictly fewer nodes below it than any node after it. */
  lemma BelowGrows(nodes: seq<Node>, stamp: seq<nat>, a: nat, b: nat)
    requires KeyLess(nodes, stamp, a, b)
    ensures |Below(nodes, stamp, a)| < |Below(nodes, stamp, b)|
  {
    var lo, hi := Below(nodes, stamp, a), Below(nodes, stamp, b);
    assert lo <= hi;
    assert a in hi - lo;
    assert hi == lo + (hi - lo);
  }

  /** The link from node i to its parent as the RRT* step maintains it. */
  ghost predicate LinkOk(nodes: seq<Node>, stamp: seq<nat>, dist: (Point, Point) -> real, i: nat)
    requires i < |nodes|
  {
    match nodes[i].parent
    case None => i == 0
    case Some(j) =>
      j < |nodes| &&
      nodes[i].cost >= nodes[j].cost + dist(nodes[j].point, nodes[i].point) &&
      KeyLess(nodes, stamp, j, i)
  }

  /**
   * Node 0 is the start node, the only one without a parent; costs are
   * non-negative and never below the parent's cost plus the link length;
   * every parent precedes its child in the key order; stamps are below
   * `clock`.
   */
  ghost predicate TreeOk(nodes: seq<Node>, stamp: seq<nat>, clock: nat, dist: (Point, Point) -> real)
  {
    IsDistance(dist) &&
    |nodes| >= 1 && nodes[0] == Node(START, None, 0.0) && |stamp| == |nodes| &&
    forall i :: 0 <= i < |nodes| ==>
      nodes[i].cost >= 0.0 && stamp[i] < clock && LinkOk(nodes, stamp, dist, i)
  }

  /** Parent walks in a well-formed tree terminate and end at the start point. */
  lemma TreeRanked(nodes: seq<Node>, stamp: seq<nat>, clock: nat, dist: (Point, Point) -> real)
    requires TreeOk(nodes, stamp, clock, dist)
    ensures Ranked(nodes, KeyRank(nodes, stamp))
    ensures RootsAt(nodes, START)
  {
    var rank := KeyRank(nodes, stamp);
    forall i | 0 <= i < |nodes| && nodes[i].parent.Some?
      ensures nodes[i].parent.value < |nodes| && rank[nodes[i].parent.value] < rank[i]
    {
      assert LinkOk(nodes, stamp, dist, i);
      BelowGrows(nodes, stamp, nodes[i].parent.value, i);
    }
    forall i | 0 <= i < |nodes| && nodes[i].parent.None?
      ensures nodes[i].point == START
    {
      assert LinkOk(nodes, stamp, dist, i);
    }
  }

  /** A node's recorded cost is never below the length of its walk back to the start. */
  lemma {:induction false} CostCoversPath(nodes: seq<Node>, stamp: seq<nat>, clock: nat, dist: (Point, Point) -> real, i: nat)
    requires TreeOk(nodes, stamp, clock, dist) && i < |nodes|
    ensures Ranked(nodes, KeyRank(nodes, stamp))
    ensures nodes[i].cost >= PathLength(PathFrom(nodes, KeyRank(nodes, stamp), i), dist)
    decreases KeyRank(nodes, stamp)[i]
  {
    TreeRanked(nodes, stamp, clock, dist);
    assert LinkOk(nodes, stamp, dist, i);
    match nodes[i].parent
    case None =>
    case Some(j) =>
      CostCoversPath(nodes, stamp, clock, dist, j);
      var path := PathFrom(nodes, KeyRank(nodes, stamp), i);
      assert path[1..] == PathFrom(nodes, KeyRank(nodes, stamp), j);
  }

  // ---------------------------------------------------------------------
  // Near nodes, choose-parent and rewire
  // ---------------------------------------------------------------------

  /** The indices below n of the nodes within `radius` of p, in store order. */
  function NearIndices(nodes: seq<Node>, p: Point, radius: real, dist: (Point, Point) -> real, n: nat): (near: seq<nat>)
    requires n <= |nodes|
    ensures forall a, b :: 0 <= a < b < |near| ==> near[a] < near[b]
    ensures forall k :: 0 <= k < |near| ==> near[k] < n
    ensures forall x: nat :: x in near <==> x < n && dist(nodes[x].point, p) <= radius
  {
    if n == 0 then []
    else
      var front := NearIndices(nodes, p, radius, dist, n - 1);
      if dist(nodes[n - 1].point, p) <= radius then front + [n - 1] else front
  }

  /** The cost of reaching p through node j: `near_node.cost + distance(near_node.point, new_node.point)`. */
  function Via(nodes: seq<Node>, j: nat, p: Point, dist: (Point, Point) -> real): real
    requires j < |nodes|
  {
    nodes[j].cost + dist(nodes[j].point, p)
  }

  /**
   * `best` is the parent choose-parent settles on: starting from the
   * nearest node q, it is the first node of `near` that is strictly cheaper
   * than everything considered before it, or q when no near node beats q.
   */
  ghost predicate ChosenParent(nodes: seq<Node>, near: seq<nat>, q: nat, p: Point, dist: (Point, Point) -> real, best: nat)
    requires q < |nodes| && forall k :: 0 <= k < |near| ==> near[k] < |nodes|
  {
    best < |nodes| && (best == q || best in near) &&
    Via(nodes, best, p, dist) <= Via(nodes, q, p, dist) &&
    (forall k :: 0 <= k < |near| ==> Via(nodes, best, p, dist) <= Via(nodes, near[k], p, dist)) &&
    (best == q ||
     (Via(nodes, best, p, dist) < Via(nodes, q, p, dist) &&
      exists m :: 0 <= m < |near| && near[m] == best &&
        forall j :: 0 <= j < m ==> Via(nodes, near[j], p, dist) > Via(nodes, best, p, dist)))
  }

  /** Choose-parent is deterministic. */
  lemma ChosenParentUnique(nodes: seq<Node>, near: seq<nat>, q: nat, p: Point, dist: (Point, Point) -> real, b1: nat, b2: nat)
    requires q < |nodes| && forall k :: 0 <= k < |near| ==> near[k] < |nodes|
    requires ChosenParent(nodes, near, q, p, dist, b1) && ChosenParent(nodes, near, q, p, dist, b2)
    ensures b1 == b2
  {
    if b1 != q && b2 != q {
      var m1 :| 0 <= m1 < |near| && near[m1] == b1 &&
        forall j :: 0 <= j < m1 ==> Via(nodes, near[j], p, dist) > Via(nodes, b1, p, dist);
      var m2 :| 0 <= m2 < |near| && near[m2] == b2 &&
        forall j :: 0 <= j < m2 ==> Via(nodes, near[j], p, dist) > Via(nodes, b2, p, dist);
      assert Via(nodes, near[m1], p, dist) <= Via(nodes, near[m2], p, dist);
      assert Via(nodes, near[m2], p, dist) <= Via(nodes, near[m1], p, dist);
      assert m1 == m2;
    }
  }

  /** Re-hanging node i below node n lowers its cost. */
  predicate Improves(nodes: seq<Node>, n: nat, i: nat, dist: (Point, Point) -> real)
    requires n < |nodes| && i < |nodes|
  {
    nodes[n].cost + dist(nodes[i].point, nodes[n].point) < nodes[i].cost
  }

  /** The tree after the rewire loop: every near node that improves is re-hung below n. */
  function Rewired(nodes: seq<Node>, near: seq<nat>, n: nat, dist: (Point, Point) -> real): (r: seq<Node>)
    requires n < |nodes|
    ensures |r| == |nodes|
  {
    seq(|nodes|, i requires 0 <= i < |nodes| =>
      if i in near && Improves(nodes, n, i, dist)
      then Node(nodes[i].point, Some(n), nodes[n].cost + dist(nodes[i].point, nodes[n].point))
      else nodes[i])
  }

  /**
   * Rewiring moves no point and touches only near nodes, each of which it
   * re-hangs below n at a strictly lower cost.
   */
  lemma RewiredOnlyLowers(nodes: seq<Node>, near: seq<nat>, n: nat, dist: (Point, Point) -> real)
    requires n < |nodes|
    ensures forall i :: 0 <= i < |nodes| ==> Rewired(nodes, near, n, dist)[i].point == nodes[i].point
    ensures forall i :: 0 <= i < |nodes| ==>
              Rewired(nodes, near, n, dist)[i] == nodes[i] ||
              (i in near && Rewired(nodes, near, n, dist)[i].parent == Some(n) &&
               Rewired(nodes, near, n, dist)[i].cost < nodes[i].cost)
  {
    var r := Rewired(nodes, near, n, dist);
    forall i | 0 <= i < |nodes|
      ensures r[i].point == nodes[i].point
      ensures r[i] == nodes[i] || (i in near && r[i].parent == Some(n) && r[i].cost < nodes[i].cost)
    {
      if i in near && Improves(nodes, n, i, dist) {
        assert r[i] == Node(nodes[i].point, Some(n), nodes[n].cost + dist(nodes[i].point, nodes[n].point));
      } else {
        assert r[i] == nodes[i];
      }
    }
  }

  /** The ghost stamps after the rewire loop: re-hung nodes get stamp t. */
  ghost function RewiredStamps(nodes: seq<Node>, stamp: seq<nat>, near: seq<nat>, n: nat, dist: (Point, Point) -> real, t: nat): (r: seq<nat>)
    requires n < |nodes| && |stamp| == |nodes|
    ensures |r| == |stamp|
  {
    seq(|stamp|, i requires 0 <= i < |stamp| => if i in near && Improves(nodes, n, i, dist) then t else stamp[i])
  }

  /** Appending a node below an existing one, with a fresh stamp, keeps the tree well formed. */
  lemma AppendKeepsTree(nodes: seq<Node>, stamp: seq<nat>, clock: nat, dist: (Point, Point) -> real, node: Node)
    requires TreeOk(nodes, stamp, clock, dist)
    requires node.parent.Some? && node.parent.value < |nodes|
    requires node.cost >= nodes[node.parent.value].cost + dist(nodes[node.parent.value].point, node.point)
    ensures TreeOk(nodes + [node], stamp + [clock], clock + 1, dist)
  {
    var nodes', stamp' := nodes + [node], stamp + [clock];
    forall i | 0 <= i < |nodes'|
      ensures nodes'[i].cost >= 0.0 && stamp'[i] < clock + 1 && LinkOk(nodes', stamp', dist, i)
    {
      if i < |nodes| {
        assert LinkOk(nodes, stamp, dist, i);
        if nodes[i].parent.Some? {
          assert KeyLess(nodes', stamp', nodes[i].parent.value, i);
        }
      } else {
        var j := node.parent.value;
        assert nodes'[j] == nodes[j] && stamp'[j] == stamp[j] && stamp[j] < clock;
      }
    }
  }

  /**
   * The rewire loop keeps the tree well formed. A re-hung node's new cost is
   * its link from n (by symmetry of the distance) on top of n's cost, and its
   * new stamp is the newest; the children it keeps had a cost at least its
   * old, strictly higher cost. The start node is never re-hung: no cost is
   * below its cost 0.
   */
  lemma RewireKeepsTree(nodes: seq<Node>, stamp: seq<nat>, clock: nat, dist: (Point, Point) -> real, near: seq<nat>, n: nat)
    requires TreeOk(nodes, stamp, clock, dist) && n < |nodes| && n !in near
    ensures TreeOk(Rewired(nodes, near, n, dist), RewiredStamps(nodes, stamp, near, n, dist, clock), clock + 1, dist)
  {
    var nodes', stamp' := Rewired(nodes, near, n, dist), RewiredStamps(nodes, stamp, near, n, dist, clock);
    assert nodes'[n] == nodes[n] && stamp'[n] == stamp[n];
    assert !Improves(nodes, n, 0, dist);
    forall i | 0 <= i < |nodes'|
      ensures nodes'[i].cost >= 0.0 && stamp'[i] < clock + 1 && LinkOk(nodes', stamp', dist, i)
    {
      assert LinkOk(nodes, stamp, dist, i);
      if i in near && Improves(nodes, n, i, dist) {
        assert dist(nodes[i].point, nodes[n].point) == dist(nodes[n].point, nodes[i].point);
        assert KeyLess(nodes', stamp', n, i);
      } else if nodes[i].parent.Some? {
        var j := nodes[i].parent.value;
        if j in near && Improves(nodes, n, j, dist) {
          assert KeyLess(nodes', stamp', j, i);
        } else {
          assert KeyLess(nodes', stamp', j, i);
        }
      }
    }
  }

  /** The start node is never re-hung: its cost is 0 and no candidate cost is strictly below it. */
  lemma RootNeverRewired(nodes: seq<Node>, stamp: seq<nat>, clock: nat, dist: (Point, Point) -> real, near: seq<nat>, n: nat)
    requires TreeOk(nodes, stamp, clock, dist) && n < |nodes|
    ensures Rewired(nodes, near, n, dist)[0] == Node(START, None, 0.0)
  {
    assert !Improves(nodes, n, 0, dist);
  }

  /** In a well-formed tree no node is cheaper than its parent. */
  lemma ParentNoCostlier(nodes: seq<Node>, stamp: seq<nat>, clock: nat, dist: (Point, Point) -> real, i: nat)
    requires TreeOk(nodes, stamp, clock, dist) && i < |nodes| && nodes[i].parent.Some?
    ensures nodes[i].parent.value < |nodes| && nodes[nodes[i].parent.value].cost <= nodes[i].cost
  {
    assert LinkOk(nodes, stamp, dist, i);
  }

  /** What the rewire loop relies on: n is a node outside `near`, whose indices are in range and increasing. */
  ghost predicate RewireArgs(nodes: seq<Node>, stamp: seq<nat>, near: seq<nat>, n: nat)
  {
    n < |nodes| && |stamp| == |nodes| && n !in near &&
    (forall m :: 0 <= m < |near| ==> near[m] < |nodes|) &&
    (forall a, b :: 0 <= a < b < |near| ==> near[a] < near[b])
  }

  /** One more pass of the rewire loop acts on near[k] alone, reading its cost as it was before the loop. */
  lemma RewiredStep(nodes: seq<Node>, stamp: seq<nat>, near: seq<nat>, k: nat, n: nat, dist: (Point, Point) -> real, t: nat)
    requires RewireArgs(nodes, stamp, near, n) && k < |near|
    ensures var i, cur := near[k], Rewired(nodes, near[..k], n, dist);
            cur[i] == nodes[i] && cur[n] == nodes[n] &&
            Rewired(nodes, near[..k + 1], n, dist) ==
              (if Improves(nodes, n, i, dist)
               then cur[i := Node(nodes[i].point, Some(n), nodes[n].cost + dist(nodes[i].point, nodes[n].point))]
               else cur) &&
            RewiredStamps(nodes, stamp, near[..k + 1], n, dist, t) ==
              (if Improves(nodes, n, i, dist)
               then RewiredStamps(nodes, stamp, near[..k], n, dist, t)[i := t]
               else RewiredStamps(nodes, stamp, near[..k], n, dist, t))
  {
    var i := near[k];
    assert near[..k + 1] == near[..k] + [i];
    assert i !in near[..k];
  }

  /** Append followed by the rewire loop keeps the tree well formed and every point admissible. */
  lemma InsertKeepsTree(nodes: seq<Node>, stamp: seq<nat>, clock: nat, dist: (Point, Point) -> real,
                        node: Node, near: seq<nat>, l: Layout)
    requires TreeOk(nodes, stamp, clock, dist)
    requires node.parent.Some? && node.parent.value < |nodes|
    requires node.cost >= nodes[node.parent.value].cost + dist(nodes[node.parent.value].point, node.point)
    requires forall k :: 0 <= k < |near| ==> near[k] < |nodes|
    requires Admissible(l, node.point) && forall i :: 0 <= i < |nodes| ==> Admissible(l, nodes[i].point)
    ensures var grown := nodes + [node];
            var after := Rewired(grown, near, |nodes|, dist);
            TreeOk(after, RewiredStamps(grown, stamp + [clock], near, |nodes|, dist, clock + 1), clock + 2, dist) &&
            forall i :: 0 <= i < |after| ==> Admissible(l, after[i].point)
  {
    var grown := nodes + [node];
    AppendKeepsTree(nodes, stamp, clock, dist, node);
    RewireKeepsTree(grown, stamp + [clock], clock + 1, dist, near, |nodes|);
    RewiredKeepsAdmissible(grown, near, |nodes|, dist, l);
  }

  lemma RewiredKeepsAdmissible(nodes: seq<Node>, near: seq<nat>, n: nat, dist: (Point, Point) -> real, l: Layout)
    requires n < |nodes| && forall i :: 0 <= i < |nodes| ==> Admissible(l, nodes[i].point)
    ensures forall i :: 0 <= i < |nodes| ==> Admissible(l, Rewired(nodes, near, n, dist)[i].point)
  {
    RewiredOnlyLowers(nodes, near, n, dist);
  }

  datatype Outcome =
    | Rejected                        // the sampled step was refused
    | Grew(index: nat)                // a node was added, the goal is still far
    | GoalReached(path: seq<Point>)   // a node near the goal was added; the walk back from it

  class StarTree {
    const layout: Layout
    /** `distance`, the Euclidean distance. */
    const dist: (Point, Point) -> real
    /** The `atan2`/`cos`/`sin` steering step from a node towards a sample. */
    const steer: (Point, Point) -> Point

    var nodes: seq<Node>
    /** `nodes_explored` of `main`. */
    var explored: nat
    ghost var stamp: seq<nat>
    ghost var clock: nat

    ghost predicate Valid()
      reads this
    {
      TreeOk(nodes, stamp, clock, dist) &&
      explored + 1 == |nodes| &&
      forall i :: 0 <= i < |nodes| ==> Admissible(layout, nodes[i].point)
    }

    constructor (layout: Layout, dist: (Point, Point) -> real, steer: (Point, Point) -> Point)
      requires IsDistance(dist)
      ensures Valid()
      ensures this.layout == layout && this.dist == dist && this.steer == steer
      ensures nodes == [Node(START, None, 0.0)] && explored == 0
    {
      this.layout := layout;
      this.dist := dist;
      this.steer := steer;
      nodes := [Node(START, None, 0.0)];
      explored := 0;
      stamp := [0];
      clock := 1;
      new;
      StartAdmissible(layout);
      assert LinkOk(nodes, stamp, dist, 0);
    }

    /** `min(nodes, key=...)`. */
    method Nearest(sample: Point) returns (q: nat)
      requires |nodes| >= 1
      ensures q < |nodes| && IsFirstNearest(PointsOf(nodes, IndexRank(|nodes|)), sample, dist, q)
    {
      var points := PointsOf(nodes, IndexRank(|nodes|));
      q := FindNearest(points, sample, dist);
    }

    /** `find_near_nodes(nodes, new_node, 50)`. */
    method FindNearNodes(p: Point) returns (near: seq<nat>)
      ensures near == NearIndices(nodes, p, NEAR_RADIUS, dist, |nodes|)
    {
      near := [];
      var k := 0;
      while k < |nodes|
        invariant 0 <= k <= |nodes|
        invariant near == NearIndices(nodes, p, NEAR_RADIUS, dist, k)
      {
        if dist(nodes[k].point, p) <= NEAR_RADIUS {
          near := near + [k];
        }
        k := k + 1;
      }
    }

    /** The choose-parent loop: keep the cheapest way to reach p, replacing it only on a strict improvement. */
    method ChooseParent(near: seq<nat>, q: nat, p: Point) returns (best: nat)
      requires q < |nodes| && forall k :: 0 <= k < |near| ==> near[k] < |nodes|
      ensures ChosenParent(nodes, near, q, p, dist, best)
    {
      best := q;
      var minCost := Via(nodes, q, p, dist);
      for k := 0 to |near|
        invariant best < |nodes| && minCost == Via(nodes, best, p, dist)
        invariant best == q || best in near
        invariant minCost <= Via(nodes, q, p, dist)
        invariant forall m :: 0 <= m < k ==> minCost <= Via(nodes, near[m], p, dist)
        invariant best == q ||
                  (minCost < Via(nodes, q, p, dist) &&
                   exists m :: 0 <= m < k && near[m] == best &&
                     forall j :: 0 <= j < m ==> Via(nodes, near[j], p, dist) > minCost)
      {
        var newCost := Via(nodes, near[k], p, dist);
        if newCost < minCost {
          minCost := newCost;
          best := near[k];
        }
      }
    }

    /**
     * Append the new node, then run the rewire loop over `near` (indices
     * taken before the append).
     */
    method Insert(node: Node, near: seq<nat>)
      requires Valid() && Admissible(layout, node.point)
      requires node.parent.Some? && node.parent.value < |nodes|
      requires node.cost >= nodes[node.parent.value].cost + dist(nodes[node.parent.value].point, node.point)
      requires forall k :: 0 <= k < |near| ==> near[k] < |nodes|
      requires forall a, b :: 0 <= a < b < |near| ==> near[a] < near[b]
      modifies this
      ensures Valid()
      ensures nodes == Rewired(old(nodes) + [node], near, |old(nodes)|, dist)
      ensures explored == old(explored) + 1
    {
      ghost var nodes0, stamp0, clock0 := nodes, stamp, clock;
      InsertKeepsTree(nodes0, stamp0, clock0, dist, node, near, layout);
      nodes := nodes + [node];
      stamp := stamp + [clock];
      clock := clock + 1;
      explored := explored + 1;
      ghost var grown := nodes0 + [node];
      var n := |nodes| - 1;
      assert n == |nodes0|;
      assert RewireArgs(grown, stamp0 + [clock0], near, n);
      RewireNear(near, n, grown, stamp0 + [clock0]);
      assert nodes == Rewired(grown, near, n, dist);
      clock := clock + 1;
    }

    /** The rewire loop: re-hang below node n every near node whose cost that lowers. */
    method RewireNear(near: seq<nat>, n: nat, ghost base: seq<Node>, ghost baseStamp: seq<nat>)
      requires nodes == base && stamp == baseStamp && RewireArgs(base, baseStamp, near, n)
      modifies this
      ensures nodes == Rewired(base, near, n, dist)
      ensures stamp == RewiredStamps(base, baseStamp, near, n, dist, clock)
      ensures clock == old(clock) && explored == old(explored)
    {
      var k := 0;
      while k < |near|
        invariant 0 <= k <= |near|
        invariant clock == old(clock) && explored == old(explored)
        invariant nodes == Rewired(base, near[..k], n, dist)
        invariant stamp == RewiredStamps(base, baseStamp, near[..k], n, dist, clock)
      {
        var i := near[k];
        RewiredStep(base, baseStamp, near, k, n, dist, clock);
        var newCost := nodes[n].cost + dist(nodes[i].point, nodes[n].point);
        if newCost < nodes[i].cost {
          nodes := nodes[i := Node(nodes[i].point, Some(n), newCost)];
          stamp := stamp[i := clock];
        }
        k := k + 1;
      }
      assert near[..|near|] == near;
    }

    /**
     * One pass of the sampling loop of `extend_rrt_star`: steer from the
     * nearest node towards the sample and, when the point is admissible,
     * add it below the cheapest near node and rewire. The new node's cost
     * stays the cost through the nearest node even when another parent is
     * chosen.
     */
    /**
     * `grown` is `nodes` after node q has been extended towards the sample:
     * the steered point is appended under the parent `choose_parent` picks
     * among the near nodes, and those near nodes are then rewired through it.
     */
    ghost predicate Grown(nodes: seq<Node>, q: nat, sample: Point, grown: seq<Node>)
      requires q < |nodes|
    {
      var p := steer(nodes[q].point, sample);
      var near := NearIndices(nodes, p, NEAR_RADIUS, dist, |nodes|);
      exists best: nat ::
        ChosenParent(nodes, near, q, p, dist, best) &&
        grown == Rewired(nodes + [Node(p, Some(best), Via(nodes, q, p, dist))], near, |nodes|, dist)
    }

    method Extend(sample: Point) returns (nearest: nat, added: Option<nat>)
      requires Valid()
      modifies this
      ensures Valid()
      ensures nearest < |old(nodes)| && IsFirstNearest(PointsOf(old(nodes), IndexRank(|old(nodes)|)), sample, dist, nearest)
      ensures added.None? <==> !Admissible(layout, steer(old(nodes)[nearest].point, sample))
      ensures added.None? ==> nodes == old(nodes) && explored == old(explored)
      ensures added.Some? ==> added.value == |old(nodes)| && |nodes| == |old(nodes)| + 1
      ensures added.Some? ==>
                added.value == |old(nodes)| && explored == old(explored) + 1 &&
                Grown(old(nodes), nearest, sample, nodes)
    {
      nearest := Nearest(sample);
      var p := steer(nodes[nearest].point, sample);
      if !Admissible(layout, p) {
        return nearest, None;
      }
      var cost := Via(nodes, nearest, p, dist);
      var near := FindNearNodes(p);
      var best := ChooseParent(near, nearest, p);
      Insert(Node(p, Some(best), cost), near);
      added := Some(|nodes| - 1);
    }

    /**
     * One frame of `main` (drawing, clock and event handling left out):
     * extend, and when the new node is within STEP_SIZE of the goal, walk
     * back from it as `draw_final_path` does.
     */
    method Step(sample: Point) returns (outcome: Outcome)
      requires Valid()
      modifies this
      ensures Valid()
      ensures outcome.Rejected? ==> nodes == old(nodes)
      ensures exists q: nat ::
                q < |old(nodes)| && IsFirstNearest(PointsOf(old(nodes), IndexRank(|old(nodes)|)), sample, dist, q) &&
                (outcome.Rejected? <==> !Admissible(layout, steer(old(nodes)[q].point, sample))) &&
                (!outcome.Rejected? ==> Grown(old(nodes), q, sample, nodes))
      ensures !outcome.Rejected? ==>
                |nodes| == |old(nodes)| + 1 &&
                (outcome.Grew? <==> dist(nodes[|nodes| - 1].point, GOAL) >= STEP_SIZE)
      ensures outcome.Grew? ==>
                outcome.index == |old(nodes)| && |nodes| == |old(nodes)| + 1 &&
                dist(nodes[outcome.index].point, GOAL) >= STEP_SIZE
      ensures outcome.GoalReached? ==>
                |nodes| == |old(nodes)| + 1 &&
                |outcome.path| >= 2 &&
                outcome.path[0] == nodes[|nodes| - 1].point &&
                dist(outcome.path[0], GOAL) < STEP_SIZE &&
                outcome.path[|outcome.path| - 1] == START &&
                PathLength(outcome.path, dist) <= nodes[|nodes| - 1].cost &&
                Ranked(nodes, KeyRank(nodes, stamp)) &&
                outcome.path == PathFrom(nodes, KeyRank(nodes, stamp), |nodes| - 1)
    {
      var nearest, added := Extend(sample);
      if added.None? {
        outcome := Rejected;
      } else if dist(nodes[added.value].point, GOAL) >= STEP_SIZE {
        outcome := Grew(added.value);
      } else {
        var path := FinalPath(added.value);
        outcome := GoalReached(path);
      }
    }

    /** The walk of `draw_final_path` from node i back to the start. */
    method FinalPath(i: nat) returns (path: seq<Point>)
      requires Valid() && 0 < i < |nodes|
      ensures |path| >= 2 && path[0] == nodes[i].point && path[|path| - 1] == START
      ensures PathLength(path, dist) <= nodes[i].cost
      ensures Ranked(nodes, KeyRank(nodes, stamp)) && path == PathFrom(nodes, KeyRank(nodes, stamp), i)
    {
      GoalPath(nodes, stamp, clock, dist, i);
      path := WalkToRoot(nodes, KeyRank(nodes, stamp), i);
    }
  }

  /** The walk from a node other than the start: at least two points, ending at START, no longer than the node's cost. */
  lemma GoalPath(nodes: seq<Node>, stamp: seq<nat>, clock: nat, dist: (Point, Point) -> real, i: nat)
    requires TreeOk(nodes, stamp, clock, dist) && 0 < i < |nodes|
    ensures Ranked(nodes, KeyRank(nodes, stamp))
    ensures var path := PathFrom(nodes, KeyRank(nodes, stamp), i);
            |path| >= 2 && path[0] == nodes[i].point && path[|path| - 1] == START &&
            PathLength(path, dist) <= nodes[i].cost
  {
    TreeRanked(nodes, stamp, clock, dist);
    PathEndsAtRoot(nodes, KeyRank(nodes, stamp), i, START);
    CostCoversPath(nodes, stamp, clock, dist, i);
    assert LinkOk(nodes, stamp, dist, i);
  }

  /** With the Euclidean distance, the nearest node is always among the near nodes of the new point. */
  lemma NearestIsNear(nodes: seq<Node>, dist: (Point, Point) -> real, steer: (Point, Point) -> Point, q: nat, sample: Point)
    requires IsEuclidean(dist) && Steers(steer) && q < |nodes|
    ensures q in NearIndices(nodes, steer(nodes[q].point, sample), NEAR_RADIUS, dist, |nodes|)
  {
    var p := steer(nodes[q].point, sample);
    SqrtAtMost(dist, nodes[q].point, p, NEAR_RADIUS);
  }
}
