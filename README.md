# RRT*, dynamic RRT* and MOD-RRT* planning cores

A Dafny model of the planning core shared by five pygame scripts that grow a
tree of collision-free steps from a start point towards a goal in an
800 x 600 workspace:

- `rrt_star_map1.py`, `rrt_star_map2.py`: RRT*. Each step picks the cheapest
  parent among the nodes within radius 50, then re-hangs any of those nodes
  below the new node when that is cheaper for them.
- `dynamic_RRT_star_map1.py`: dynamic obstacles are admitted first, pruning
  the tree. Growth then attaches each step to the nearest node. The tree is
  reset when the found path crosses a dynamic obstacle.
- `mod_rrt_map1.py`, `mod_rrt_map2.py`: MOD-RRT*. Attach to the nearest node
  unless a Pareto filter on (cost, distance to goal) rejects the step.
- The path pipeline: parent walk, `simplify_path`, `interpolate_path` /
  `interpolate_segment`, and the two `smooth_path` variants.

Files and modules:

- `geometry.dfy` (module `Geometry`): points, rectangles and circles; the
  placement-overlap tests; point-in-obstacle with clearance; the bounding-box
  segment/rectangle test; the clamped-projection segment/circle test.
  Comparisons against `math.sqrt` are written in squared form. Lemmas show
  that the squared form agrees with the source's comparison whenever the
  distance function is the Euclidean one.
- `trees.dfy` (module `Trees`): the node datatype, the parent walk and the
  first-nearest search.
- `reactive.dfy` (module `Reactive`): the class `Planner` for the three
  scripts with dynamic obstacles, chosen by a `Variant` constant.
  - `store` holds every node ever created. `live` lists the store indices
    that form the Python `nodes` list.
  - Pruning rebuilds `live` only, so a surviving node may still name a pruned
    parent, as a Python node keeps its reference to a dropped parent.
  - A reset appends a fresh start node and makes it the only live node.
- `rrtstar.dfy` (module `RrtStar`): the class `StarTree` for the two RRT*
  scripts. Rewiring changes parents and costs in place.
  - A ghost key (cost, stamp) strictly increases along every parent link.
    Rewiring preserves this. So the parent walk of `draw_final_path` always
    terminates and ends at `START`.
- `paths.dfy` (module `Paths`): the path pipeline.

The distance is a parameter `dist`. The tree code only needs it to be
non-negative and symmetric (`IsDistance`). `IsEuclidean` ties it to the
squared distance. The steering step is a parameter `steer`. It is assumed to
land exactly `STEP_SIZE` = 20 away from the node it starts from (`Steers`).

Behaviour kept as the source has it:

- The RRT* scripts set the new node's cost through the nearest node. They
  then re-hang it below the cheapest near node without updating that cost.
  The tree invariant is therefore `cost >= parent cost + link length`, not
  equality.
- The rewire loop does not update the costs of a re-hung node's descendants.
- `in_rect` in `rrt_star_map2.py` ignores its clearance argument.
- `rrt_star_map1.py` measures clearance from each rectangle's centre.
- The dynamic-obstacle guard `len < 3 and len < 1` in `mod_rrt_map2.py` caps
  the list at one obstacle. `in_obstacle` there scans only the static
  obstacles, with clearance 20.
- Pruning only drops nodes from the list. It does not remove subtrees.
- `mod_rrt_map1.py` accepts the path to the goal without checking it against
  the dynamic obstacles. The two other reactive scripts reset the tree when
  it crosses one.

The code does not remove subtrees on pruning, does not keep a node's cost
equal to its parent's cost plus the link, and does not check the
choose-parent and rewire segments for collisions; the model follows the
code.

## Model

| member | source | states |
|---|---|---|
| `Geometry.RectOverlap` | mod_rrt_map2.py:112-115 | definition of `rect_overlap`: the strict four-way separating-axis test on (x, y, w, h) |
| `Geometry.CircleOverlap` | mod_rrt_map2.py:117-120 | definition of `circle_overlap`: the squared centre distance is below (r1 + r2) squared, with r1 + r2 > 0 |
| `Geometry.CircleRectOverlap` | mod_rrt_map2.py:104-110 | definition of `circle_rect_overlap`: the centre clamped into the rectangle is strictly within the radius, in squared form |
| `Geometry.InRect` | mod_rrt_map1.py:53-59 | definition of the rectangle test of `in_obstacle`: both coordinates within the closed rectangle widened by the clearance on every side |
| `Geometry.InCircle` | mod_rrt_map2.py:128-131 | definition of the circle test of `in_obstacle`: the squared distance to the centre is at most (r + clearance) squared |
| `Geometry.AnyContains` | dynamic_RRT_star_map1.py:54-59 | definition of `in_obstacle`: some obstacle of the list contains the point at the given clearance |
| `Geometry.LineIntersectsRect` | dynamic_RRT_star_map1.py:88-105 | definition of `line_intersects_rect`: one of the four corner-in-box tests of the source holds |
| `Geometry.LineIntersectsCircle` | mod_rrt_map2.py:182-204 | definition of `line_intersects_circle`: the clamped projection of the centre lies within the radius, for p1 != p2 |
| `Geometry.SegmentHits` | mod_rrt_map2.py:169-179 | definition of the type dispatch of `intersects_dynamic_obstacle` for one obstacle |
| `Geometry.AnySegmentHit` | mod_rrt_map1.py:165-169 | definition of `line_intersects_obstacles` / `intersects_dynamic_obstacle`: some obstacle of the list flags the segment |
| `Geometry.RectOverlapSymmetric` | mod_rrt_map2.py:112-115 | `rect_overlap(a, b)` equals `rect_overlap(b, a)` for all rectangles |
| `Geometry.RectOverlapMeansSharedInterior` | dynamic_RRT_star_map1.py:47-50 | for rectangles of positive size, the separating-axis test holds exactly when the open rectangles share a point |
| `Geometry.CircleOverlapSymmetric` | mod_rrt_map2.py:117-120 | `circle_overlap` is symmetric |
| `Geometry.CircleOverlapMatchesDistance` | mod_rrt_map2.py:117-120 | with the Euclidean distance, the squared-form test equals `distance(centres) < r1 + r2`, for any radii |
| `Geometry.ClosestInRect` | mod_rrt_map2.py:107-108 | the clamped point lies in the closed rectangle when w, h >= 0; it is the point itself when that is inside |
| `Geometry.ClosestInRectIsClosest` | mod_rrt_map2.py:104-110 | the clamped point is at least as close to the circle centre as any point of the closed rectangle |
| `Geometry.CentreInsideRectOverlaps` | mod_rrt_map2.py:104-110 | a circle with r > 0 whose centre lies in the rectangle always overlaps it |
| `Geometry.AnyContainsMonotone` | mod_rrt_map1.py:53-59 | `in_obstacle` is monotone in the clearance: a point blocked at c1 is blocked at every c2 >= c1 |
| `Geometry.InCircleMatchesDistance` | mod_rrt_map2.py:128-131 | the circle branch of `in_obstacle` equals `distance(centre, p) <= r + clearance` |
| `Geometry.LineIntersectsRectSymmetric` | mod_rrt_map2.py:208-225 | `line_intersects_rect` gives the same answer with its endpoints swapped |
| `Geometry.SegmentInsideRectIsFlagged` | dynamic_RRT_star_map1.py:88-105 | a segment with both ends in the closed rectangle is always flagged |
| `Geometry.LineIntersectsRectMissesCrossing` | mod_rrt_map1.py:98-115 | a single example of a missed crossing: a segment straight through a rectangle's middle is not flagged |
| `Geometry.ProjectionParam` | mod_rrt_map2.py:194-200 | for p1 != p2 (the division at line 197), the clamped projection parameter lies in [0, 1] |
| `Geometry.NearestOnSegmentIsCloser` | mod_rrt_map2.py:194-202 | the clamped projection is no farther from the centre than either endpoint |
| `Geometry.EndpointInCircleIntersects` | mod_rrt_map2.py:182-204 | when either endpoint is within the radius, `line_intersects_circle` is true |
| `Geometry.LineIntersectsCircleMatchesDistance` | mod_rrt_map2.py:202-204 | the squared form equals `distance(nearest, centre) <= radius` |
| `Geometry.EuclideanIsDistance` | mod_rrt_map2.py:242-243 | the Euclidean distance is non-negative and symmetric, which is all the tree code assumes |
| `Trees.PathFrom` | rrt_star_map2.py:136-141 | the points of the parent chain from node i, child first; it starts at node i's point, and the rank measure makes it terminate |
| `Trees.WalkToRoot` | rrt_star_map2.py:137-141 | the `while current_node` walk collects exactly the points of the parent chain, child first, and terminates |
| `Trees.PathEndsAtRoot` | rrt_star_map1.py:107-112 | every parent walk ends at a parentless node, hence at the start point |
| `Trees.PathEdges` | dynamic_RRT_star_map1.py:180-187 | consecutive points of a walk are (child, parent) pairs and inherit every property of the links |
| `Trees.FindNearest` | dynamic_RRT_star_map1.py:65 | `min(nodes, key=distance)`: the result minimises the distance to the sample, and every earlier node is strictly farther |
| `Trees.FirstNearestUnique` | mod_rrt_map2.py:143 | the first nearest node is unique, so the choice is deterministic |
| `Trees.StepDistinct` | mod_rrt_map2.py:146-147 | a steered point is never the node it leaves, so the segment/circle division is defined |
| `Reactive.PointBlocked` | mod_rrt_map2.py:125-136 | definition of the `in_obstacle` each reactive script calls: its obstacle list (static only in mod_rrt_map2.py) and its clearance (0, 10 or 20) |
| `Reactive.PlacementOverlap` | mod_rrt_map2.py:62-78 | definition of the type dispatch of the placement check, with the circle-rectangle test always given (circle, rectangle) |
| `Reactive.Survivors` | dynamic_RRT_star_map1.py:209 | `[node for node in nodes if not in_obstacle(node.point)]` on live indices; never longer than the input |
| `Reactive.StartIsFree` | dynamic_RRT_star_map1.py:205-206 | no static obstacle and no obstacle in the spawn range covers the start point |
| `Reactive.SpawnedRects` | mod_rrt_map1.py:220-221 | the first two reactive scripts only ever admit rectangles |
| `Reactive.PlacementOverlapSymmetric` | mod_rrt_map2.py:62-78 | the type dispatch of the placement check gives the same answer whichever obstacle is new |
| `Reactive.SurvivorsMembers` | dynamic_RRT_star_map1.py:209 | after pruning, a node is live exactly when it was live and no obstacle blocks it |
| `Reactive.SurvivorsIncreasing` | mod_rrt_map1.py:224 | pruning keeps the survivors in their original order |
| `Reactive.SurvivorsKeepFirst` | dynamic_RRT_star_map1.py:209 | a first node that survives stays first |
| `Reactive.PruneKeepsRoot` | mod_rrt_map1.py:224 | pruning keeps the start node first, keeps the order, and leaves no blocked node |
| `Reactive.SurvivorsAll` | dynamic_RRT_star_map1.py:209 | with nothing newly blocked, pruning returns the list unchanged |
| `Reactive.LinksRanked` | dynamic_RRT_star_map1.py:73-74 | every parent was created before its child, every parentless node is the start, and no link has length zero |
| `Reactive.WalkShape` | mod_rrt_map2.py:317-322 | the walk from a node starts at it, ends at the start point, and never repeats a point across a link |
| `Reactive.LinksExtend` | mod_rrt_map2.py:160-162 | appending a well-linked node keeps every link well formed |
| `Reactive.CostIsPathLength` | mod_rrt_map1.py:82-85 | a node's cost is exactly the summed link lengths of its walk back to the start |
| `Reactive.Planner.constructor` | dynamic_RRT_star_map1.py:194-196 | the tree starts as the single start node, with no dynamic obstacles and growth off |
| `Reactive.Planner.AdmitAndPrune` | dynamic_RRT_star_map1.py:204-213 | the proposed rectangle is appended, the live list becomes exactly the old live nodes no obstacle blocks, and growth starts exactly when the count reaches 5 |
| `Reactive.Planner.Unblocked` | mod_rrt_map1.py:224 | the list comprehension returns exactly the filtered live list |
| `Reactive.Planner.CheckOverlap` | mod_rrt_map2.py:60-78 | the scan reports an overlap iff some static or dynamic obstacle overlaps the proposal |
| `Reactive.Planner.AdmitPlaced` | mod_rrt_map2.py:50-82 | the proposal is appended iff the list is empty and nothing overlaps it; otherwise nothing changes, and the list never exceeds one obstacle |
| `Reactive.Planner.Dominated` | mod_rrt_map2.py:154-158 | definition of Pareto dominance: some live node has cost <= the new cost and goal distance <= the new goal distance |
| `Reactive.Planner.IsDominated` | mod_rrt_map2.py:154-158 | the flag is set iff some live node has cost <= new cost and goal distance <= new goal distance |
| `Reactive.Planner.NearestLive` | mod_rrt_map1.py:66 | the chosen node is the first nearest live node |
| `Reactive.Planner.NearestLiveUnique` | mod_rrt_map1.py:66 | the nearest live node is determined by the sample |
| `Reactive.Planner.Refused` | mod_rrt_map2.py:146-159 | definition of refusal: the steered point is blocked, or its segment from the nearest node is flagged by a dynamic obstacle, or (MOD-RRT*) a live node dominates it |
| `Reactive.Planner.SampleRefused` | mod_rrt_map2.py:141-159 | definition: the live node nearest to the sample has a refused candidate |
| `Reactive.Planner.NearestDecidesRefusal` | mod_rrt_map2.py:143-159 | the sample is refused exactly when the unique nearest live node's candidate is refused |
| `Reactive.Planner.WalkFromLast` | mod_rrt_map2.py:317-322 | the walk from the newest node of a well-linked store: no repeated point across a link, starting at that node, ending at the start point |
| `Reactive.Planner.CandidateRefused` | dynamic_RRT_star_map1.py:70-72 | a candidate is refused iff its point is blocked, or its segment from nearest is flagged by a dynamic obstacle, or (MOD-RRT*) a live node dominates it |
| `Reactive.Planner.Attach` | mod_rrt_map2.py:160-162 | `nodes.append`: exactly one node added at the end, earlier nodes unchanged, invariants kept |
| `Reactive.Planner.Extend` | mod_rrt_map1.py:63-88 | one attempt: refused iff the refusal condition holds; else exactly one node appended, parent = nearest, cost = nearest cost + link length, earlier nodes unchanged |
| `Reactive.Planner.AcceptedStepApproachesGoal` | mod_rrt_map1.py:77-86 | an accepted MOD-RRT* step ends strictly closer to the goal than the node it leaves |
| `Reactive.Planner.PathIntersectsObstacle` | mod_rrt_map2.py:317-327 | true iff some consecutive pair of the walk from the node is flagged by a dynamic obstacle |
| `Reactive.Planner.Reset` | mod_rrt_map2.py:348-350 | `nodes = [Node(START)]`: a fresh start node becomes the only live node; obstacles are kept |
| `Reactive.Planner.GrowOutcome` | mod_rrt_map2.py:346-350 | definition of one growth frame's effect: refusal, append, growth report by distance to the goal, reset exactly on a crossing walk (outside mod_rrt_map1.py), else the walk as the goal path |
| `Reactive.Planner.RejectedOutcome` | mod_rrt_map2.py:143-159 | a refused nearest candidate gives the `Rejected` frame of `GrowOutcome`, with the tree unchanged |
| `Reactive.Planner.Settled` | mod_rrt_map2.py:348-361 | definition of the goal test on the newest node: growth iff at least STEP_SIZE from the goal; near it, reset iff (outside mod_rrt_map1.py) the walk crosses a dynamic obstacle, else that walk |
| `Reactive.Planner.AcceptedOutcome` | mod_rrt_map2.py:143-162 | an accepted nearest candidate, appended and then settled by the goal test, gives a frame of `GrowOutcome` |
| `Reactive.Planner.GrowOutcomeShape` | mod_rrt_map2.py:346-361 | in every frame `GrowOutcome` allows: a refusal changes nothing; growth appends one node at least STEP_SIZE from the goal; a goal path has two or more points with no repeat across a link, runs from the new node (within STEP_SIZE of the goal) to the start, and (outside mod_rrt_map1.py) crosses no dynamic obstacle; a reset leaves a fresh start node as the only live node |
| `Reactive.Planner.Grow` | mod_rrt_map2.py:346-361 | one growth frame satisfies `GrowOutcome` with the old tree, keeps the invariants, and leaves the obstacle list alone |
| `Reactive.Planner.Tick` | dynamic_RRT_star_map1.py:203-218 | one frame: while admitting, the tree is not grown and obstacles are admitted and pruned as above; once growing, the obstacle list never changes and the frame does exactly what `GrowOutcome` states for `Grow` |
| `Reactive.Planner.Settle` | mod_rrt_map2.py:348-361 | the goal test on the node just appended does exactly what `Settled` states, keeping the invariants |
| `Reactive.Planner.SurvivorsUnchanged` | dynamic_RRT_star_map1.py:204-209 | a frame with no new obstacle prunes nothing |
| `Paths.SubseqNoLonger` | dynamic_RRT_star_map1.py:137-151 | a subsequence is never longer than its source |
| `Paths.AngleKeep` | dynamic_RRT_star_map1.py:140-147 | the keep flag of each interior point: the angle test against the first and last points; one flag per interior point |
| `Paths.SmoothByAngle` | dynamic_RRT_star_map1.py:137-151 | keeps the first and last points and exactly the interior points the angle test keeps, in order: a subsequence |
| `Paths.KeepDeviating` | mod_rrt_map2.py:276-283 | the inner loop keeps exactly the deviating interior points, in order |
| `Paths.CollisionKeep` | mod_rrt_map1.py:148-157 | the keep flag of each interior point: no later point's segment from it is flagged; one flag per interior point |
| `Paths.KeepClear` | mod_rrt_map1.py:148-157 | the outer loop keeps exactly the interior points with no flagged segment to a later point, in order |
| `Paths.SmoothByCollision` | mod_rrt_map1.py:145-161 | keeps the first and last points and exactly the interior points with no flagged segment to any later point: a subsequence |
| `Paths.ScanLater` | mod_rrt_map1.py:150-154 | the `intersects` flag is set iff some later point's segment is flagged by `line_intersects_obstacles` |
| `Paths.CollisionKeptPointsAreClear` | mod_rrt_map1.py:165-169 | a kept interior point has an unflagged segment to every later point |
| `Paths.Kept` | mod_rrt_map2.py:249-251 | definition of the loop of `simplify_path`: each interior point is kept or dropped by the shortcut test from the last kept point to the next point |
| `Paths.Simplified` | mod_rrt_map2.py:247-253 | the simplified path starts with `path[0]` and ends with `path[-1]` |
| `Paths.SimplifyPath` | dynamic_RRT_star_map1.py:112-118 | the loop builds exactly the as-written simplification |
| `Paths.SimplifiedIsSubseq` | mod_rrt_map1.py:122-128 | for two or more points, the simplification is a subsequence of the path |
| `Paths.KeptIsSubseq` | mod_rrt_map2.py:249-251 | the kept interior points are a subsequence of the interior |
| `Paths.SimplifyAsWrittenCutsCorner` | mod_rrt_map2.py:250 | as written, a path with no flagged segment can simplify to one with a flagged segment |
| `Paths.SimplifyCorrectedKeepsClear` | dynamic_RRT_star_map1.py:115 | with the keep condition reversed, a path with no flagged segment simplifies to one with none |
| `Paths.InterpolateSegment` | mod_rrt_map1.py:139-143 | ten points, the first is point1, the last point2, every one inside their bounding box |
| `Paths.InterpolatePath` | mod_rrt_map2.py:257-261 | exactly 10 * (len - 1) points; block i is the interpolation of path[i] to path[i + 1] |
| `Paths.InterpolatedEnds` | mod_rrt_map2.py:257-269 | the interpolated path starts at the path's first point and ends at its last |
| `Paths.PostProcess` | dynamic_RRT_star_map1.py:227-234 | interpolate then smooth: the interpolated path is ten points per segment, block by block; the smoothed path is exactly its angle selection, a subsequence of it that keeps both ends of the path and has at most 10 * (len - 1) points |
| `RrtStar.TooCloseTo` | rrt_star_map2.py:87-91 | definition of the clearance filter for one obstacle: map 1 measures from the rectangle centre with 30 + NODE_RADIUS, map 2 uses `in_rect` without clearance and `in_circle` with 20 + NODE_RADIUS |
| `RrtStar.Admissible` | rrt_star_map2.py:87-92 | definition of the acceptance test: outside every clearance zone and not `in_obstacle` |
| `RrtStar.Map2ZoneCoversObstacles` | rrt_star_map2.py:87-92 | the clearance filter refuses every point `in_obstacle` refuses, so the second check never fires |
| `RrtStar.Map1ZoneMatchesDistance` | rrt_star_map1.py:60 | the centre-clearance filter equals `distance(p, centre) <= 30 + NODE_RADIUS` |
| `RrtStar.StartAdmissible` | rrt_star_map2.py:20-30 | the start point passes every clearance filter and `in_obstacle` |
| `RrtStar.TreeRanked` | rrt_star_map2.py:137-141 | in a well-formed tree every parent walk terminates and ends at `START` |
| `RrtStar.CostCoversPath` | rrt_star_map1.py:62-80 | a node's recorded cost is never below the length of its walk back to the start |
| `RrtStar.NearIndices` | rrt_star_map2.py:117-122 | exactly the nodes with distance <= radius, in list order |
| `RrtStar.ChosenParent` | rrt_star_map2.py:96-104 | definition of the choose-parent result: minimal `cost + d` over nearest and the near nodes; nearest unless a near node is strictly cheaper, else the earliest near node of minimal cost |
| `RrtStar.ChosenParentUnique` | rrt_star_map2.py:96-104 | choose-parent is deterministic: strict `<` makes the earliest cheapest candidate win |
| `RrtStar.Rewired` | rrt_star_map2.py:106-111 | the rewire loop as a function: each near node that gets strictly cheaper through the new node is re-hung below it with that cost; the length is unchanged |
| `RrtStar.RewiredOnlyLowers` | rrt_star_map2.py:106-111 | rewiring moves no point; each node either is unchanged or is a near node re-hung below the new node at a strictly lower cost |
| `RrtStar.RootNeverRewired` | rrt_star_map2.py:106-111 | the start node (cost 0) is never re-parented |
| `RrtStar.ParentNoCostlier` | rrt_star_map2.py:94-111 | no node is cheaper than its parent |
| `RrtStar.AppendKeepsTree` | rrt_star_map2.py:104-105 | appending the new node below its chosen parent keeps the tree well formed |
| `RrtStar.RewireKeepsTree` | rrt_star_map1.py:75-80 | the rewire loop keeps every parent strictly before its child in (cost, stamp), so it never makes a node its own ancestor |
| `RrtStar.InsertKeepsTree` | rrt_star_map1.py:73-80 | append then rewire keeps the tree well formed and every point admissible |
| `RrtStar.GoalPath` | rrt_star_map1.py:106-115 | the walk from a non-start node has at least two points, ends at `START` and is no longer than the node's cost |
| `RrtStar.NearestIsNear` | rrt_star_map2.py:95-97 | with the Euclidean distance, the nearest node is always among the near nodes of the new point |
| `RrtStar.StarTree.constructor` | rrt_star_map2.py:150-151 | the tree starts as the single start node with nothing explored |
| `RrtStar.StarTree.Nearest` | rrt_star_map2.py:82 | the first nearest node to the sample |
| `RrtStar.StarTree.FindNearNodes` | rrt_star_map1.py:87-92 | the append loop returns exactly the nodes within radius 50, in list order |
| `RrtStar.StarTree.ChooseParent` | rrt_star_map1.py:64-73 | the chosen parent minimises `cost + d` over nearest and near nodes, the earliest candidate winning ties |
| `RrtStar.StarTree.RewireNear` | rrt_star_map2.py:106-111 | the in-place loop yields exactly the rewired tree, reading each near node's cost before the loop |
| `RrtStar.StarTree.Insert` | rrt_star_map2.py:104-112 | append and rewire keep the tree invariants; `nodes_explored` grows by exactly one |
| `RrtStar.StarTree.Grown` | rrt_star_map2.py:93-111 | definition of a successful extension: the steered point appended below the chosen parent with the cost through nearest, then the near nodes rewired |
| `RrtStar.StarTree.Extend` | rrt_star_map2.py:77-115 | one attempt: refused iff the point fails the filters; else one node is appended with the chosen parent and the cost through nearest, and the near nodes are rewired |
| `RrtStar.StarTree.Step` | rrt_star_map1.py:128-140 | one frame: refused (nothing changes) iff the first nearest node's steered point fails the filters; else the tree becomes exactly the grown tree of `Grown`, growth is reported iff the new node is at least STEP_SIZE from the goal, and otherwise the result is the parent walk from the new node, which ends at `START` and is no longer than its cost |
| `RrtStar.StarTree.FinalPath` | rrt_star_map2.py:136-145 | `draw_final_path` returns exactly the parent walk from the node; it terminates, ends at `START`, and is no longer than the node's cost |

## Left out

- Rendering, the event loop, `clock.tick`, `time.sleep`, timing and `print` statistics: I/O only.
- `random` sampling and the random obstacle proposals: the sample and the proposed obstacle are method inputs. `Spawnable` records the `randint` ranges of the proposals.
- Steering through `atan2`/`cos`/`sin`: a parameter `steer`, assumed to land exactly 20 from the node it leaves.
- `math.sqrt`: a parameter `dist`. Comparisons against it are squared; lemmas relate the two under `IsEuclidean`.
- `np.linspace`: modelled as t = k / 9 over reals.
- IEEE floating-point rounding: coordinates and costs are reals.
- The `while True` retry loops: one attempt per call. A refused attempt returns `Rejected` and changes nothing.
- `Reactive.Planner.Tick`: after `GoalReached` the source breaks out of `main`; the model lets further frames run.
- `RrtStar.StarTree.Step`: after `GoalReached` the source breaks out of `main` (rrt_star_map1.py:140, and likewise in rrt_star_map2.py); the model lets further steps run.
- `Paths.SmoothByCollision`: requires at least one point; on an empty path `smooth_path` raises IndexError at `path[0]` (mod_rrt_map1.py:146), which the model does not represent.
- `Paths.SimplifyPath`: requires at least one point; on an empty path `simplify_path` raises IndexError at `path[0]` (dynamic_RRT_star_map1.py:113, mod_rrt_map1.py:123), which the model does not represent.
- `Paths.SmoothByAngle`: requires at least one point; on an empty path `smooth_path` raises IndexError at `path[0]` (dynamic_RRT_star_map1.py:138), which the model does not represent.
- `smooth_path` angle test: an abstract predicate `deviates`. Only the structure of the loop is verified.
- The in-loop `if not in_obstacle(new_node.point)` guards of the RRT* `extend_rrt_star`: always true once the point passed the same check, so not modelled.
- `SimplifyPath` for `mod_rrt_map2.py`: there `DYNAMIC_OBSTACLES[0]` is a tagged tuple, so for any path of three or more points the call fails. A tagged rectangle has five values and its unpacking into four at mod_rrt_map2.py:211 raises. A tagged circle has four, so the unpacking succeeds, and the comparison `x <= left` at line 216 then raises on the string tag. The model takes the dynamic rectangle as a parameter, as in the other two scripts.
- `line_intersects_obstacle` of `mod_rrt_map2.py` is never called. It is the predicate `AnySegmentHit` over the static and dynamic obstacles, with no member of its own.
- The drawing-only `rect_overlap` filter in `draw_map` of `dynamic_RRT_star_map1.py` and `mod_rrt_map1.py`.

## Findings

| source | as written | input that shows it | evidently intended | confidence | as-written member | corrected member |
|---|---|---|---|---|---|---|
| dynamic_RRT_star_map1.py:115 | keeps `path[i]` when the shortcut from the last kept point to `path[i+1]` is NOT flagged, so it drops the point exactly when the shortcut is blocked | path (0,0), (0,10), (10,10) and rectangle (4,4,2,2): no segment is flagged, yet the output (0,0), (10,10) is flagged | drop `path[i]` when the shortcut is clear, keep it when it is flagged | not executed; medium | `Paths.SimplifyAsWrittenCutsCorner` | `Paths.SimplifyCorrectedKeepsClear` |
