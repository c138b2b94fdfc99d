/**
 * The three reactive planners: dynamic_RRT_star_map1.py (attach to the
 * nearest node), mod_rrt_map1.py and mod_rrt_map2.py (attach to the
 * nearest node unless a Pareto filter on (cost, distance to goal) rejects
 * the candidate). Each admits randomly proposed dynamic obstacles before
 * it starts growing its tree, and dynamic_RRT_star_map1.py and
 * mod_rrt_map2.py throw the tree away when the path found crosses a
 * dynamic obstacle.
 *
 * The Python `nodes` list holds Node objects whose `parent` fields are
 * object references. Here every node ever created stays in `store`, and
 * `live` lists the store indices that make up the current `nodes` list:
 * pruning rebuilds `live` only, so a surviving node may still name a
 * parent that was pruned, exactly as a surviving Python node keeps its
 * reference to a dropped parent.
 */
module Reactive {
  import opened Geometry
  import opened Trees

  datatype Variant = DynamicMap1 | ModMap1 | ModMap2

  function Start(v: Variant): Point
  {
    match v
    case DynamicMap1 => Point(50.0, 550.0)
    case ModMap1 => Point(50.0, 50.0)
    case ModMap2 => Point(50.0, 550.0)
  }

  function Goal(v: Variant): Point
  {
    match v
    case DynamicMap1 => Point(750.0, 50.0)
    case ModMap1 => Point(700.0, 520.0)
    case ModMap2 => Point(750.0, 50.0)
  }

  /** How many dynamic obstacles are admitted before the tree starts growing. */
  function Cap(v: Variant): nat
  {
    if v.ModMap2? then 1 else 5
  }

  function Statics(v: Variant): seq<Obstacle>
  {
    if v.ModMap2? then
      [CircleObs(Circle(600.0, 400.0, 100.0)), RectObs(Rect(0.0, 200.0, 400.0, 50.0)),
       RectObs(Rect(0.0, 400.0, 400.0, 50.0)), RectObs(Rect(0.0, 100.0, 400.0, 50.0)),
       CircleObs(Circle(600.0, 100.0, 100.0))]
    else
      [RectObs(Rect(300.0, 200.0, 100.0, 100.0)), RectObs(Rect(500.0, 400.0, 100.0, 100.0)),
       RectObs(Rect(100.0, 300.0, 50.0, 50.0))]
  }

  /** The clearance `in_obstacle` uses by default. */
  function Clearance(v: Variant): real
  {
    match v
    case DynamicMap1 => 0.0
    case ModMap1 => 10.0
    case ModMap2 => 20.0
  }

  /** The obstacles `in_obstacle` scans: mod_rrt_map2.py looks at the static ones only. */
  function Blocking(v: Variant, dynamics: seq<Obstacle>): seq<Obstacle>
  {
    if v.ModMap2? then Statics(v) else Statics(v) + dynamics
  }

  /** `in_obstacle(point)` of each script. */
  predicate PointBlocked(v: Variant, dynamics: seq<Obstacle>, p: Point)
  {
    AnyContains(Blocking(v, dynamics), p, Clearance(v))
  }

  /**
   * The range of the `random.randint` calls that propose a dynamic
   * obstacle; only mod_rrt_map2.py proposes circles.
   */
  predicate Spawnable(v: Variant, o: Obstacle)
  {
    match o
    case RectObs(r) => 100.0 <= r.x <= 700.0 && 100.0 <= r.y <= 500.0 && 20.0 <= r.w <= 80.0 && 20.0 <= r.h <= 80.0
    case CircleObs(c) => v.ModMap2? && 100.0 <= c.cx <= 700.0 && 100.0 <= c.cy <= 500.0 && 20.0 <= c.r <= 40.0
  }

  ghost predicate AllSpawnable(v: Variant, dynamics: seq<Obstacle>)
  {
    forall k :: 0 <= k < |dynamics| ==> Spawnable(v, dynamics[k])
  }

  /** No spawnable obstacle and no static obstacle ever covers the start point. */
  lemma StartIsFree(v: Variant, dynamics: seq<Obstacle>)
    requires AllSpawnable(v, dynamics)
    ensures !PointBlocked(v, dynamics, Start(v))
  {
    var obs := Blocking(v, dynamics);
    var s := Start(v);
    forall i | 0 <= i < |obs|
      ensures !Contains(obs[i], s, Clearance(v))
    {
      if i >= |Statics(v)| {
        assert obs[i] == dynamics[i - |Statics(v)|];
        assert Spawnable(v, obs[i]);
      }
    }
  }

  /** Every dynamic obstacle the first two scripts admit is a rectangle. */
  lemma SpawnedRects(v: Variant, dynamics: seq<Obstacle>)
    requires AllSpawnable(v, dynamics) && !v.ModMap2?
    ensures AllRects(dynamics)
  {
  }

  // ---------------------------------------------------------------------
  // Obstacle admission in mod_rrt_map2.py
  // ---------------------------------------------------------------------

  /**
   * The type dispatch of the placement check: circle against circle,
   * rectangle against rectangle, and the circle-rectangle test with its
   * arguments in (circle, rectangle) order whichever one is new.
   */
  predicate PlacementOverlap(existing: Obstacle, proposed: Obstacle)
  {
    match (existing, proposed)
    case (CircleObs(a), CircleObs(b)) => CircleOverlap(a, b)
    case (RectObs(a), RectObs(b)) => RectOverlap(a, b)
    case (CircleObs(a), RectObs(b)) => CircleRectOverlap(a, b)
    case (RectObs(a), CircleObs(b)) => CircleRectOverlap(b, a)
  }

  predicate OverlapsAny(existing: seq<Obstacle>, proposed: Obstacle)
  {
    exists k :: 0 <= k < |existing| && PlacementOverlap(existing[k], proposed)
  }

  /** The dispatch gives the same answer whichever of the two obstacles is the new one. */
  lemma PlacementOverlapSymmetric(a: Obstacle, b: Obstacle)
    ensures PlacementOverlap(a, b) == PlacementOverlap(b, a)
  {
    match (a, b)
    case (CircleObs(x), CircleObs(y)) => CircleOverlapSymmetric(x, y);
    case (RectObs(x), RectObs(y)) => RectOverlapSymmetric(x, y);
    case (CircleObs(x), RectObs(y)) =>
    case (RectObs(x), CircleObs(y)) =>
  }

  // ---------------------------------------------------------------------
  // Pruning
  // ---------------------------------------------------------------------

  /** `[node for node in nodes if not in_obstacle(node.point)]` on store indices. */
  function Survivors(nodes: seq<Node>, ids: seq<nat>, v: Variant, dynamics: seq<Obstacle>): (kept: seq<nat>)
    requires forall k :: 0 <= k < |ids| ==> ids[k] < |nodes|
    ensures |kept| <= |ids|
  {
    if |ids| == 0 then []
    else
      var last := ids[|ids| - 1];
      Survivors(nodes, ids[..|ids| - 1], v, dynamics) +
      (if PointBlocked(v, dynamics, nodes[last].point) then [] else [last])
  }

  predicate Increasing(s: seq<nat>)
  {
    forall k, m :: 0 <= k < m < |s| ==> s[k] < s[m]
  }

  /** The survivors are exactly the listed nodes that no obstacle blocks. */
  lemma {:induction false} SurvivorsMembers(nodes: seq<Node>, ids: seq<nat>, v: Variant, dynamics: seq<Obstacle>)
    requires forall k :: 0 <= k < |ids| ==> ids[k] < |nodes|
    ensures forall x :: x in Survivors(nodes, ids, v, dynamics) <==>
              x in ids && !PointBlocked(v, dynamics, nodes[x].point)
    decreases |ids|
  {
    if |ids| > 0 {
      var n := |ids| - 1;
      SurvivorsMembers(nodes, ids[..n], v, dynamics);
      assert ids == ids[..n] + [ids[n]];
    }
  }

  /** Filtering keeps the survivors in their original order. */
  lemma {:induction false} SurvivorsIncreasing(nodes: seq<Node>, ids: seq<nat>, v: Variant, dynamics: seq<Obstacle>)
    requires forall k :: 0 <= k < |ids| ==> ids[k] < |nodes|
    requires Increasing(ids)
    ensures Increasing(Survivors(nodes, ids, v, dynamics))
    decreases |ids|
  {
    if |ids| > 0 {
      var n := |ids| - 1;
      SurvivorsIncreasing(nodes, ids[..n], v, dynamics);
      SurvivorsMembers(nodes, ids[..n], v, dynamics);
      var front := Survivors(nodes, ids[..n], v, dynamics);
      forall k | 0 <= k < |front|
        ensures front[k] < ids[n]
      {
        assert front[k] in ids[..n];
      }
    }
  }

  /** A first node that survives stays first. */
  lemma {:induction false} SurvivorsKeepFirst(nodes: seq<Node>, ids: seq<nat>, v: Variant, dynamics: seq<Obstacle>)
    requires forall k :: 0 <= k < |ids| ==> ids[k] < |nodes|
    requires |ids| >= 1 && !PointBlocked(v, dynamics, nodes[ids[0]].point)
    ensures |Survivors(nodes, ids, v, dynamics)| >= 1 && Survivors(nodes, ids, v, dynamics)[0] == ids[0]
    decreases |ids|
  {
    if |ids| > 1 {
      var n := |ids| - 1;
      SurvivorsKeepFirst(nodes, ids[..n], v, dynamics);
    }
  }

  /**
   * Pruning keeps the live list well formed: the start node survives and
   * stays first, the order is kept, and no survivor is blocked.
   */
  lemma PruneKeepsRoot(nodes: seq<Node>, ids: seq<nat>, v: Variant, dynamics: seq<Obstacle>)
    requires forall k :: 0 <= k < |ids| ==> ids[k] < |nodes|
    requires Increasing(ids) && |ids| >= 1 && nodes[ids[0]] == Node(Start(v), None, 0.0)
    requires AllSpawnable(v, dynamics)
    ensures var kept := Survivors(nodes, ids, v, dynamics);
            |kept| >= 1 && kept[0] == ids[0] && Increasing(kept) &&
            forall k :: 0 <= k < |kept| ==> kept[k] < |nodes| && !PointBlocked(v, dynamics, nodes[kept[k]].point)
  {
    var kept := Survivors(nodes, ids, v, dynamics);
    SurvivorsMembers(nodes, ids, v, dynamics);
    SurvivorsIncreasing(nodes, ids, v, dynamics);
    StartIsFree(v, dynamics);
    SurvivorsKeepFirst(nodes, ids, v, dynamics);
    forall k | 0 <= k < |kept|
      ensures kept[k] < |nodes| && !PointBlocked(v, dynamics, nodes[kept[k]].point)
    {
      assert kept[k] in kept;
    }
  }

  // ---------------------------------------------------------------------
  // Paths against the dynamic obstacles
  // ---------------------------------------------------------------------

  /** No two consecutive points coincide, so the segment-circle test can divide by the length. */
  predicate Steps(path: seq<Point>)
  {
    forall k :: 0 <= k < |path| - 1 ==> path[k] != path[k + 1]
  }

  /** The test of `path_intersects_obstacle`: some consecutive pair is flagged by some obstacle. */
  predicate PathHitsAny(obstacles: seq<Obstacle>, path: seq<Point>)
    requires Steps(path) || AllRects(obstacles)
  {
    exists k :: 0 <= k < |path| - 1 && AnySegmentHit(obstacles, path[k], path[k + 1])
  }

  /** The link store[i] -> parent as the planners create it. */
  ghost predicate LinkOk(nodes: seq<Node>, i: nat, start: Point, dist: (Point, Point) -> real)
    requires i < |nodes|
  {
    match nodes[i].parent
    case None => nodes[i].point == start && nodes[i].cost == 0.0
    case Some(j) =>
      j < i &&
      nodes[i].cost == nodes[j].cost + dist(nodes[j].point, nodes[i].point) &&
      Dist2(nodes[j].point, nodes[i].point) == STEP_SIZE * STEP_SIZE
  }

  ghost predicate AllLinksOk(nodes: seq<Node>, start: Point, dist: (Point, Point) -> real)
  {
    forall i :: 0 <= i < |nodes| ==> LinkOk(nodes, i, start, dist)
  }

  /** Well-linked stores are ranked by index, root every walk at the start, and never repeat a point along a link. */
  lemma LinksRanked(nodes: seq<Node>, start: Point, dist: (Point, Point) -> real)
    requires AllLinksOk(nodes, start, dist)
    ensures Ranked(nodes, IndexRank(|nodes|))
    ensures RootsAt(nodes, start)
    ensures EdgesSatisfy(nodes, (a: Point, b: Point) => a != b)
  {
    forall i | 0 <= i < |nodes| && nodes[i].parent.Some?
      ensures nodes[i].parent.value < i && nodes[i].point != nodes[nodes[i].parent.value].point
    {
      assert LinkOk(nodes, i, start, dist);
      StepDistinct(nodes[nodes[i].parent.value].point, nodes[i].point);
    }
    forall i | 0 <= i < |nodes| && nodes[i].parent.None?
      ensures nodes[i].point == start
    {
      assert LinkOk(nodes, i, start, dist);
    }
  }

  /** A walk over a well-linked store starts at the node, ends at the start point and never stands still. */
  lemma WalkShape(nodes: seq<Node>, start: Point, dist: (Point, Point) -> real, i: nat)
    requires AllLinksOk(nodes, start, dist) && i < |nodes|
    ensures Ranked(nodes, IndexRank(|nodes|))
    ensures var path := PathFrom(nodes, IndexRank(|nodes|), i);
            path[0] == nodes[i].point && path[|path| - 1] == start && Steps(path) &&
            (nodes[i].parent.Some? ==> |path| >= 2)
  {
    LinksRanked(nodes, start, dist);
    var rank := IndexRank(|nodes|);
    PathEndsAtRoot(nodes, rank, i, start);
    PathEdges(nodes, rank, i, (a: Point, b: Point) => a != b);
  }

  /** Appending a well-linked node keeps the whole store well linked. */
  lemma LinksExtend(nodes: seq<Node>, n: Node, start: Point, dist: (Point, Point) -> real)
    requires AllLinksOk(nodes, start, dist) && LinkOk(nodes + [n], |nodes|, start, dist)
    ensures AllLinksOk(nodes + [n], start, dist)
  {
    var all := nodes + [n];
    forall i | 0 <= i < |all|
      ensures LinkOk(all, i, start, dist)
    {
      if i < |nodes| {
        assert LinkOk(nodes, i, start, dist);
        assert all[i] == nodes[i];
        if all[i].parent.Some? {
          assert all[all[i].parent.value] == nodes[nodes[i].parent.value];
        }
      }
    }
  }

  /** The cost of a node is the length of its walk back to the start. */
  lemma {:induction false} CostIsPathLength(nodes: seq<Node>, start: Point, dist: (Point, Point) -> real, i: nat)
    requires AllLinksOk(nodes, start, dist) && i < |nodes|
    ensures Ranked(nodes, IndexRank(|nodes|))
    ensures nodes[i].cost == PathLength(PathFrom(nodes, IndexRank(|nodes|), i), dist)
    decreases i
  {
    LinksRanked(nodes, start, dist);
    assert LinkOk(nodes, i, start, dist);
    match nodes[i].parent
    case None =>
    case Some(j) =>
      CostIsPathLength(nodes, start, dist, j);
      var path := PathFrom(nodes, IndexRank(|nodes|), i);
      assert path[1..] == PathFrom(nodes, IndexRank(|nodes|), j);
  }

  datatype Outcome =
    | Waiting                         // still admitting dynamic obstacles
    | Rejected                        // the sampled candidate was refused
    | Grew(index: nat)                // a node was added, the goal is still far
    | GoalReached(path: seq<Point>)   // a node near the goal was added; the walk back from it
    | Replanned                       // the path crossed a dynamic obstacle; the tree was reset

  class Planner {
    const variant: Variant
    /** `distance`, the Euclidean distance. */
    const dist: (Point, Point) -> real
    /** The `atan2`/`cos`/`sin` steering step from a node towards a sample. */
    const steer: (Point, Point) -> Point

    var store: seq<Node>
    var live: seq<nat>
    var dynamics: seq<Obstacle>
    /** `dynamic_obstacles_added`. */
    var growing: bool

    ghost predicate TreeValid()
      reads this
    {
      IsDistance(dist) && Steers(steer) &&
      |store| >= 1 && |live| >= 1 &&
      AllLinksOk(store, Start(variant), dist) &&
      (forall k :: 0 <= k < |live| ==> live[k] < |store|) &&
      Increasing(live) &&
      store[live[0]] == Node(Start(variant), None, 0.0) &&
      (forall k :: 0 <= k < |live| ==> !PointBlocked(variant, dynamics, store[live[k]].point)) &&
      AllSpawnable(variant, dynamics)
    }

    ghost predicate Valid()
      reads this
    {
      TreeValid() &&
      |dynamics| <= Cap(variant) &&
      (growing <==> |dynamics| == Cap(variant))
    }

    constructor (variant: Variant, dist: (Point, Point) -> real, steer: (Point, Point) -> Point)
      requires IsDistance(dist) && Steers(steer)
      ensures Valid()
      ensures this.variant == variant && this.dist == dist && this.steer == steer
      ensures store == [Node(Start(variant), None, 0.0)] && live == [0] && dynamics == [] && !growing
    {
      this.variant := variant;
      this.dist := dist;
      this.steer := steer;
      store := [Node(Start(variant), None, 0.0)];
      live := [0];
      dynamics := [];
      growing := false;
      new;
      StartIsFree(variant, []);
    }

    // -------------------------------------------------------------------
    // Admission
    // -------------------------------------------------------------------

    /**
     * dynamic_RRT_star_map1.py and mod_rrt_map1.py: append the proposed
     * rectangle, drop every node it (or any obstacle) now blocks, and start
     * growing once five obstacles are in.
     */
    method AdmitAndPrune(o: Obstacle)
      requires Valid() && !growing && !variant.ModMap2? && Spawnable(variant, o)
      modifies this
      ensures Valid()
      ensures dynamics == old(dynamics) + [o] && store == old(store)
      ensures live == Survivors(store, old(live), variant, dynamics)
      ensures growing == (|dynamics| == 5)
    {
      assert |dynamics| < Cap(variant);
      if |dynamics| < 5 {
        var grown := dynamics + [o];
        assert AllSpawnable(variant, grown);
        PruneKeepsRoot(store, live, variant, grown);
        var kept := Unblocked(grown);
        dynamics, live := grown, kept;
        if |dynamics| == 5 {
          growing := true;
        }
      }
    }

    /** `[node for node in nodes if not in_obstacle(node.point)]`, with `obstacles` as the dynamic list. */
    method Unblocked(obstacles: seq<Obstacle>) returns (kept: seq<nat>)
      requires forall k :: 0 <= k < |live| ==> live[k] < |store|
      ensures kept == Survivors(store, live, variant, obstacles)
    {
      kept := [];
      var k := 0;
      while k < |live|
        invariant 0 <= k <= |live|
        invariant kept == Survivors(store, live[..k], variant, obstacles)
      {
        if !PointBlocked(variant, obstacles, store[live[k]].point) {
          kept := kept + [live[k]];
        }
        assert live[..k + 1][..k] == live[..k];
        k := k + 1;
      }
      assert live[..|live|] == live;
    }

    /** The `for obs in STATIC_OBSTACLES + DYNAMIC_OBSTACLES` scan of mod_rrt_map2.py's `draw_map`. */
    method CheckOverlap(o: Obstacle) returns (overlaps: bool)
      ensures overlaps == OverlapsAny(Statics(variant) + dynamics, o)
    {
      var existing := Statics(variant) + dynamics;
      overlaps := false;
      var k := 0;
      while k < |existing|
        invariant 0 <= k <= |existing|
        invariant forall m :: 0 <= m < k ==> !PlacementOverlap(existing[m], o)
      {
        if PlacementOverlap(existing[k], o) {
          overlaps := true;
          return;
        }
        k := k + 1;
      }
    }

    /**
     * mod_rrt_map2.py: while `len < 3 and len < 1`, append the proposed
     * obstacle unless it overlaps a static or dynamic obstacle.
     */
    method AdmitPlaced(o: Obstacle)
      requires TreeValid() && variant.ModMap2? && Spawnable(variant, o) && |dynamics| <= 1
      modifies this
      ensures TreeValid() && store == old(store) && live == old(live) && growing == old(growing)
      ensures dynamics ==
                if |old(dynamics)| < 1 && !OverlapsAny(Statics(variant) + old(dynamics), o)
                then old(dynamics) + [o] else old(dynamics)
      ensures |dynamics| <= 1
    {
      if |dynamics| < 3 && |dynamics| < 1 {
        var overlaps := CheckOverlap(o);
        if !overlaps {
          dynamics := dynamics + [o];
        }
      }
    }

    // -------------------------------------------------------------------
    // Growth
    // -------------------------------------------------------------------

    /** Some node of the list is at least as cheap and at least as close to the goal. */
    ghost predicate Dominated(nodes: seq<Node>, ids: seq<nat>, cost: real, goalDistance: real)
    {
      exists k :: 0 <= k < |ids| && ids[k] < |nodes| &&
        nodes[ids[k]].cost <= cost && dist(nodes[ids[k]].point, Goal(variant)) <= goalDistance
    }

    /** The `dominated` flag loop of `mod_rrt_star`. */
    method IsDominated(cost: real, goalDistance: real) returns (dominated: bool)
      requires forall k :: 0 <= k < |live| ==> live[k] < |store|
      ensures dominated == Dominated(store, live, cost, goalDistance)
    {
      dominated := false;
      var k := 0;
      while k < |live|
        invariant 0 <= k <= |live|
        invariant forall m :: 0 <= m < k ==>
                    !(store[live[m]].cost <= cost && dist(store[live[m]].point, Goal(variant)) <= goalDistance)
      {
        var node := store[live[k]];
        if node.cost <= cost && dist(node.point, Goal(variant)) <= goalDistance {
          dominated := true;
          return;
        }
        k := k + 1;
      }
    }

    /** q is the node `min(nodes, key=...)` returns for the sample. */
    ghost predicate IsNearestLive(nodes: seq<Node>, ids: seq<nat>, sample: Point, q: nat)
    {
      (forall k :: 0 <= k < |ids| ==> ids[k] < |nodes|) &&
      exists k: nat :: IsFirstNearest(PointsOf(nodes, ids), sample, dist, k) && ids[k] == q
    }

    /** The node the step would add below nodes[q]. */
    function Candidate(nodes: seq<Node>, q: nat, sample: Point): Node
      requires q < |nodes|
    {
      var p := steer(nodes[q].point, sample);
      Node(p, Some(q), nodes[q].cost + dist(nodes[q].point, p))
    }

    /**
     * Why a candidate is refused: its point is in an obstacle, the segment
     * from the nearest node is flagged by a dynamic obstacle, or (in the
     * two mod_rrt scripts) a live node dominates it.
     */
    ghost predicate Refused(nodes: seq<Node>, ids: seq<nat>, q: nat, sample: Point)
      reads this
      requires q < |nodes| && Steers(steer)
    {
      var c := Candidate(nodes, q, sample);
      StepDistinct(nodes[q].point, c.point);
      PointBlocked(variant, dynamics, c.point) ||
      AnySegmentHit(dynamics, nodes[q].point, c.point) ||
      (!variant.DynamicMap1? && Dominated(nodes, ids, c.cost, dist(c.point, Goal(variant))))
    }

    /**
     * One pass of the sampling loop of `extend_rrt_star`
     * (dynamic_RRT_star_map1.py) or `mod_rrt_star`: the node nearest to the
     * sample is extended by one step unless the candidate is refused.
     */
    method Extend(sample: Point) returns (nearest: nat, added: Option<nat>)
      requires Valid() && growing
      modifies this
      ensures Valid() && dynamics == old(dynamics) && growing
      ensures IsNearestLive(old(store), old(live), sample, nearest) && nearest < |old(store)|
      ensures added.None? <==> Refused(old(store), old(live), nearest, sample)
      ensures added.None? ==> store == old(store) && live == old(live)
      ensures added.Some? ==>
                added.value == |old(store)| && live == old(live) + [added.value] &&
                store == old(store) + [Candidate(old(store), nearest, sample)]
    {
      nearest := NearestLive(sample);
      var refused := CandidateRefused(nearest, sample);
      if refused {
        return nearest, None;
      }
      Attach(Candidate(store, nearest, sample));
      added := Some(|store| - 1);
    }

    /** `min(nodes, key=...)` over the live nodes. */
    method NearestLive(sample: Point) returns (q: nat)
      requires TreeValid()
      ensures IsNearestLive(store, live, sample, q) && q < |store|
    {
      var points := PointsOf(store, live);
      var k := FindNearest(points, sample, dist);
      q := live[k];
    }

    /** The checks `extend_rrt_star` / `mod_rrt_star` make before appending. */
    method CandidateRefused(q: nat, sample: Point) returns (refused: bool)
      requires TreeValid() && q < |store|
      ensures refused == Refused(store, live, q, sample)
    {
      var c := Candidate(store, q, sample);
      StepDistinct(store[q].point, c.point);
      if PointBlocked(variant, dynamics, c.point) || AnySegmentHit(dynamics, store[q].point, c.point) {
        return true;
      }
      refused := false;
      if !variant.DynamicMap1? {
        refused := IsDominated(c.cost, dist(c.point, Goal(variant)));
      }
    }

    /** `nodes.append(new_node)` for an unblocked, well-linked node. */
    method Attach(n: Node)
      requires TreeValid() && LinkOk(store + [n], |store|, Start(variant), dist)
      requires !PointBlocked(variant, dynamics, n.point)
      modifies this
      ensures TreeValid()
      ensures store == old(store) + [n] && live == old(live) + [|old(store)|]
      ensures dynamics == old(dynamics) && growing == old(growing)
    {
      LinksExtend(store, n, Start(variant), dist);
      store := store + [n];
      live := live + [|store| - 1];
    }

    /** The nearest live node is determined by the sample. */
    lemma NearestLiveUnique(nodes: seq<Node>, ids: seq<nat>, sample: Point, q1: nat, q2: nat)
      requires IsNearestLive(nodes, ids, sample, q1) && IsNearestLive(nodes, ids, sample, q2)
      ensures q1 == q2
    {
      var points := PointsOf(nodes, ids);
      var k1: nat :| IsFirstNearest(points, sample, dist, k1) && ids[k1] == q1;
      var k2: nat :| IsFirstNearest(points, sample, dist, k2) && ids[k2] == q2;
      FirstNearestUnique(points, sample, dist, k1, k2);
    }

    /**
     * The Pareto filter of the two mod_rrt scripts only lets a step through
     * when it ends strictly closer to the goal than the node it leaves:
     * otherwise that node, no more expensive, dominates it.
     */
    lemma AcceptedStepApproachesGoal(nodes: seq<Node>, ids: seq<nat>, q: nat, sample: Point)
      requires IsDistance(dist) && Steers(steer) && !variant.DynamicMap1?
      requires q < |nodes| && q in ids && !Refused(nodes, ids, q, sample)
      ensures dist(Candidate(nodes, q, sample).point, Goal(variant)) < dist(nodes[q].point, Goal(variant))
    {
      var c := Candidate(nodes, q, sample);
      var k :| 0 <= k < |ids| && ids[k] == q;
      assert nodes[ids[k]].cost <= c.cost;
    }

    /**
     * `path_intersects_obstacle`: walk back from node i and test every
     * consecutive pair against the dynamic obstacles.
     */
    method PathIntersectsObstacle(i: nat) returns (hit: bool)
      requires TreeValid() && i < |store|
      ensures Ranked(store, IndexRank(|store|))
      ensures Steps(PathFrom(store, IndexRank(|store|), i))
      ensures hit == PathHitsAny(dynamics, PathFrom(store, IndexRank(|store|), i))
    {
      WalkShape(store, Start(variant), dist, i);
      var path := WalkToRoot(store, IndexRank(|store|), i);
      hit := false;
      var k := 0;
      while k < |path| - 1
        invariant 0 <= k <= if |path| == 0 then 0 else |path| - 1
        invariant forall m :: 0 <= m < k ==> !AnySegmentHit(dynamics, path[m], path[m + 1])
      {
        if AnySegmentHit(dynamics, path[k], path[k + 1]) {
          hit := true;
          return;
        }
        k := k + 1;
      }
    }

    /** `nodes = [Node(START)]`: a fresh root becomes the only live node. */
    method Reset()
      requires TreeValid()
      modifies this
      ensures TreeValid()
      ensures store == old(store) + [Node(Start(variant), None, 0.0)] && live == [|old(store)|]
      ensures dynamics == old(dynamics) && growing == old(growing)
    {
      store := store + [Node(Start(variant), None, 0.0)];
      live := [|store| - 1];
      StartIsFree(variant, dynamics);
      LinksExtend(old(store), store[|store| - 1], Start(variant), dist);
    }

    /** The sample is refused: the live node nearest to it cannot be extended towards it. */
    ghost predicate SampleRefused(nodes: seq<Node>, ids: seq<nat>, sample: Point)
      reads this
      requires Steers(steer)
    {
      exists q: nat :: IsNearestLive(nodes, ids, sample, q) && q < |nodes| && Refused(nodes, ids, q, sample)
    }

    /** The attempt is refused exactly when the (unique) nearest live node's candidate is refused. */
    lemma NearestDecidesRefusal(nodes: seq<Node>, ids: seq<nat>, sample: Point, q: nat)
      requires Steers(steer) && IsNearestLive(nodes, ids, sample, q) && q < |nodes|
      ensures SampleRefused(nodes, ids, sample) <==> Refused(nodes, ids, q, sample)
    {
      if SampleRefused(nodes, ids, sample) {
        var q': nat :| IsNearestLive(nodes, ids, sample, q') && q' < |nodes| && Refused(nodes, ids, q', sample);
        NearestLiveUnique(nodes, ids, sample, q, q');
      }
    }

    /** `grown` is `nodes` with the candidate of the nearest live node appended. */
    ghost predicate ExtendedBy(nodes: seq<Node>, ids: seq<nat>, sample: Point, grown: seq<Node>)
    {
      exists q: nat :: IsNearestLive(nodes, ids, sample, q) && q < |nodes| && grown == nodes + [Candidate(nodes, q, sample)]
    }

    /** The points of the parent walk from the newest node of a well-linked store. */
    ghost function WalkFromLast(nodes: seq<Node>): (path: seq<Point>)
      requires |nodes| >= 1 && AllLinksOk(nodes, Start(variant), dist)
      ensures |path| >= 1 && Steps(path) && path[0] == nodes[|nodes| - 1].point && path[|path| - 1] == Start(variant)
    {
      WalkShape(nodes, Start(variant), dist, |nodes| - 1);
      PathFrom(nodes, IndexRank(|nodes|), |nodes| - 1)
    }

    /** `path_intersects_obstacle(nodes, GOAL)`: some link of that walk is flagged by an obstacle of the list. */
    ghost predicate WalkHits(obstacles: seq<Obstacle>, nodes: seq<Node>)
      requires |nodes| >= 1 && AllLinksOk(nodes, Start(variant), dist)
    {
      PathHitsAny(obstacles, WalkFromLast(nodes))
    }

    /**
     * What one growth frame does to the live tree (store0, live0), giving
     * (store1, live1): it is refused exactly when the nearest node's
     * candidate is; otherwise that candidate is appended, the frame reports
     * growth exactly when the new node is at least STEP_SIZE from the goal,
     * and near the goal it resets exactly when (outside mod_rrt_map1.py) the
     * walk back from the new node crosses a dynamic obstacle, returning that
     * walk otherwise.
     */
    ghost predicate GrowOutcome(store0: seq<Node>, live0: seq<nat>, sample: Point,
                                store1: seq<Node>, live1: seq<nat>, outcome: Outcome)
      reads this
    {
      var n := |store0|;
      Steers(steer) && !outcome.Waiting? &&
      (outcome.Rejected? <==> SampleRefused(store0, live0, sample)) &&
      (outcome.Rejected? ==> store1 == store0 && live1 == live0) &&
      (!outcome.Rejected? ==>
         |store1| > n && ExtendedBy(store0, live0, sample, store1[..n + 1]) &&
         AllLinksOk(store1[..n + 1], Start(variant), dist) &&
         var close := dist(store1[n].point, Goal(variant)) < STEP_SIZE;
         (outcome.Grew? <==> !close) &&
         (outcome.Replanned? <==> close && !variant.ModMap1? && WalkHits(dynamics, store1[..n + 1])) &&
         (outcome.Replanned? ==> store1 == store1[..n + 1] + [Node(Start(variant), None, 0.0)] && live1 == [n + 1]) &&
         (!outcome.Replanned? ==> store1 == store1[..n + 1] && live1 == live0 + [n]) &&
         (outcome.Grew? ==> outcome.index == n) &&
         (outcome.GoalReached? ==> outcome.path == WalkFromLast(store1[..n + 1])))
    }

    /** A refused sample leaves the tree as it is. */
    lemma RejectedOutcome(store0: seq<Node>, live0: seq<nat>, sample: Point, q: nat)
      requires Steers(steer) && IsNearestLive(store0, live0, sample, q) && q < |store0|
      requires Refused(store0, live0, q, sample)
      ensures GrowOutcome(store0, live0, sample, store0, live0, Rejected)
    {
      NearestDecidesRefusal(store0, live0, sample, q);
    }

    /**
     * What the goal test does with the newest node of `grown`, giving
     * (store1, live1): report growth when the node is at least STEP_SIZE from
     * the goal; near it, reset exactly when (outside mod_rrt_map1.py) the
     * walk back crosses a dynamic obstacle, and return that walk otherwise.
     */
    ghost predicate Settled(grown: seq<Node>, live0: seq<nat>, store1: seq<Node>, live1: seq<nat>, outcome: Outcome)
      reads this
      requires |grown| >= 1 && AllLinksOk(grown, Start(variant), dist)
    {
      var n := |grown| - 1;
      var close := dist(grown[n].point, Goal(variant)) < STEP_SIZE;
      (outcome.Grew? || outcome.Replanned? || outcome.GoalReached?) &&
      (outcome.Grew? <==> !close) &&
      (outcome.Replanned? <==> close && !variant.ModMap1? && WalkHits(dynamics, grown)) &&
      (outcome.Grew? ==> outcome.index == n) &&
      (outcome.Replanned? ==> store1 == grown + [Node(Start(variant), None, 0.0)] && live1 == [n + 1]) &&
      (!outcome.Replanned? ==> store1 == grown && live1 == live0) &&
      (outcome.GoalReached? ==> outcome.path == WalkFromLast(grown))
    }

    /** An accepted sample appends the nearest node's candidate, and the goal test settles the rest. */
    lemma AcceptedOutcome(store0: seq<Node>, live0: seq<nat>, sample: Point, q: nat,
                          grown: seq<Node>, store1: seq<Node>, live1: seq<nat>, outcome: Outcome)
      requires Steers(steer) && IsNearestLive(store0, live0, sample, q) && q < |store0|
      requires !Refused(store0, live0, q, sample)
      requires grown == store0 + [Candidate(store0, q, sample)] && AllLinksOk(grown, Start(variant), dist)
      requires Settled(grown, live0 + [|store0|], store1, live1, outcome)
      ensures GrowOutcome(store0, live0, sample, store1, live1, outcome)
    {
      NearestDecidesRefusal(store0, live0, sample, q);
      assert store1[..|store0| + 1] == grown;
      assert ExtendedBy(store0, live0, sample, grown);
    }

    /** What any growth frame allowed by `GrowOutcome` looks like, outcome by outcome. */
    lemma GrowOutcomeShape(store0: seq<Node>, live0: seq<nat>, sample: Point,
                           store1: seq<Node>, live1: seq<nat>, outcome: Outcome)
      requires GrowOutcome(store0, live0, sample, store1, live1, outcome)
      ensures outcome.Rejected? || outcome.Grew? || outcome.GoalReached? || outcome.Replanned?
      ensures outcome.Rejected? ==> store1 == store0 && live1 == live0
      ensures outcome.Grew? ==>
                outcome.index == |store0| && |store1| == |store0| + 1 && live1 == live0 + [outcome.index] &&
                dist(store1[outcome.index].point, Goal(variant)) >= STEP_SIZE
      ensures outcome.GoalReached? ==>
                |store1| == |store0| + 1 && live1 == live0 + [|store0|] &&
                Steps(outcome.path) && |outcome.path| >= 2 &&
                outcome.path[0] == store1[|store0|].point &&
                dist(outcome.path[0], Goal(variant)) < STEP_SIZE &&
                outcome.path[|outcome.path| - 1] == Start(variant) &&
                (!variant.ModMap1? ==> !PathHitsAny(dynamics, outcome.path))
      ensures outcome.Replanned? ==>
                !variant.ModMap1? && |store1| == |store0| + 2 &&
                store1[|store1| - 1] == Node(Start(variant), None, 0.0) && live1 == [|store1| - 1]
    {
      if outcome.GoalReached? {
        var n := |store0|;
        var grown := store1[..n + 1];
        var q: nat :| IsNearestLive(store0, live0, sample, q) && q < |store0| && grown == store0 + [Candidate(store0, q, sample)];
        assert grown[n].parent.Some?;
        WalkShape(grown, Start(variant), dist, n);
      }
    }

    /**
     * The growth branch of `main`: extend once; when the new node is
     * within STEP_SIZE of the goal, dynamic_RRT_star_map1.py and
     * mod_rrt_map2.py check the path back to the root against the dynamic
     * obstacles and reset on a hit, while mod_rrt_map1.py accepts it.
     */
    method Grow(sample: Point) returns (outcome: Outcome)
      requires Valid() && growing
      modifies this
      ensures Valid() && dynamics == old(dynamics) && growing
      ensures GrowOutcome(old(store), old(live), sample, store, live, outcome)
    {
      var nearest, added := Extend(sample);
      if added.None? {
        outcome := Rejected;
        RejectedOutcome(old(store), old(live), sample, nearest);
      } else {
        ghost var grown := store;
        outcome := Settle(added.value);
        AcceptedOutcome(old(store), old(live), sample, nearest, grown, store, live, outcome);
      }
    }

    /**
     * The goal test of `main` on the node just appended: growth far from
     * the goal; near it, `path_intersects_obstacle` and a reset on a hit
     * (not in mod_rrt_map1.py), else the walk of the final path.
     */
    method Settle(i: nat) returns (outcome: Outcome)
      requires Valid() && growing && i == |store| - 1
      modifies this
      ensures Valid() && dynamics == old(dynamics) && growing
      ensures Settled(old(store), old(live), store, live, outcome)
    {
      if dist(store[i].point, Goal(variant)) >= STEP_SIZE {
        return Grew(i);
      }
      WalkShape(store, Start(variant), dist, i);
      if !variant.ModMap1? {
        var hit := PathIntersectsObstacle(i);
        if hit {
          Reset();
          return Replanned;
        }
      }
      var path := WalkToRoot(store, IndexRank(|store|), i);
      outcome := GoalReached(path);
    }

    /**
     * One frame of `main` (drawing, clock and event handling left out).
     * `proposal` is the obstacle the random detection proposes in this
     * frame, if it fires; `sample` is the random point the growth step
     * draws.
     */
    method Tick(proposal: Option<Obstacle>, sample: Point) returns (outcome: Outcome)
      requires Valid()
      requires proposal.Some? ==> Spawnable(variant, proposal.value)
      modifies this
      ensures Valid()
      ensures !old(growing) ==> outcome == Waiting && store == old(store)
      ensures !old(growing) && !variant.ModMap2? ==>
                dynamics == (if proposal.Some? then old(dynamics) + [proposal.value] else old(dynamics)) &&
                live == Survivors(store, old(live), variant, dynamics)
      ensures old(growing) ==> dynamics == old(dynamics) && GrowOutcome(old(store), old(live), sample, store, live, outcome)
      ensures variant.ModMap2? && !old(growing) ==>
                live == old(live) &&
                dynamics == (if proposal.Some? && |old(dynamics)| < 1 &&
                                !OverlapsAny(Statics(variant) + old(dynamics), proposal.value)
                             then old(dynamics) + [proposal.value] else old(dynamics))
    {
      if variant.ModMap2? {
        if proposal.Some? {
          AdmitPlaced(proposal.value);
        }
        if !growing {
          if |dynamics| == 1 {
            growing := true;
          }
          return Waiting;
        }
        outcome := Grow(sample);
      } else {
        if !growing {
          if proposal.Some? {
            AdmitAndPrune(proposal.value);
          } else {
            SurvivorsUnchanged();
          }
          return Waiting;
        }
        outcome := Grow(sample);
      }
    }

    /** With no new obstacle nothing is pruned: every live node already survives. */
    lemma SurvivorsUnchanged()
      requires TreeValid()
      ensures live == Survivors(store, live, variant, dynamics)
    {
      SurvivorsAll(store, live, variant, dynamics);
    }
  }

  lemma {:induction false} SurvivorsAll(nodes: seq<Node>, ids: seq<nat>, v: Variant, dynamics: seq<Obstacle>)
    requires forall k :: 0 <= k < |ids| ==> ids[k] < |nodes| && !PointBlocked(v, dynamics, nodes[ids[k]].point)
    ensures Survivors(nodes, ids, v, dynamics) == ids
    decreases |ids|
  {
    if |ids| > 0 {
      var n := |ids| - 1;
      SurvivorsAll(nodes, ids[..n], v, dynamics);
      assert ids == ids[..n] + [ids[n]];
    }
  }
}
