# HackInit game scaffold: a verified model of its core

This Dafny project models the game-independent core of the slhack / HackInit Rust scaffold and proves properties about it:

- **Keyframe animation of scene objects** (`slhack/src/scene.rs`):
  - `compute_start_end`;
  - the `AnimationState` requests (`reset`, `set_new_animation`);
  - the cursor loop of `Object::advance_state`;
  - the sampling in `get_animation_position`.
- **Scene meshes** (`slhack/src/scene.rs`):
  - the vertex welding shared by `load_obj` and `get_navmesh`;
  - the neighbour lists of the navigation mesh;
  - the object kinds the OBJ and glTF loaders give;
  - the triangle filter of `clip_meshes`.
- **A\* search** (`src/astar.rs`): `AStarContext` with its open set, `came_from` and `cost` vectors, `pos_to_idx` and `solve`.
- **Flipbook sprites** (`example3d/src/sprite.rs`):
  - the normalisation of durations and the "Default" animation in `Sprite::load`;
  - `get_frame`;
  - the frame loop of `advance_state`, with its activation and loop counts.
- **Menus** (`slhack/src/ui.rs`):
  - the input of buttons, toggles and sliders;
  - the `WidgetList` selection over a ragged grid of widgets, with wrap-around navigation.
- **Sound bookkeeping** (`slhack/src/sfx.rs`):
  - the per-sample instance lists, capped at 10;
  - the queue of exclusive sounds;
  - the pending-music swap with its fade.
- **Small utilities** (`src/utils.rs`): `max`, `min`, `clamp`, the string trim of `nice_float`, `nearest_line_point`, `nearest_poly_point` and `is_inside_poly`.
- **Interpolated position** (`src/components.rs`): `Position`.

There is one module per source file. `Vectors` (2-D/3-D vectors and quaternions as records of reals) and `Options` are shared.

Objects that the source updates in place are classes, and their methods have `modifies` clauses:

- `Animation`, `AnimationState` (scene and sprite);
- `AStarContext`, `WidgetList`, `Sfx` and `Position`.

Each loop-based method, and each method that updates a class, states its result or its new state in its `ensures`. The statement is either a pure specification function of the inputs (for example, the neighbour loop `RelaxNeighbours` yields `RelaxedAll` of its neighbour list) or the predicates that a search or walk keeps (`SearchIn`, `ClosedIn`, `IsChainIn`). Lemmas prove properties of those functions and predicates.

Modelling conventions:

- Floating-point numbers are reals.
- A Rust panic is an explicit outcome, never a precondition. Examples: `unwrap` on `None`, `expect`, an index out of range, `unimplemented!`, `% 0`, a `usize` underflow.
  - The outcome is an `Option` that is `None`, a `Panic`/`NavPanic`/`InputPanic`/`ListPanic` constructor, or a `panicked` flag.
- The model takes these as parameters, because the model cannot see them:
  - the norm used for distances;
  - the A\* cost function;
  - the vertex quantisation of the navmesh;
  - the triangle filter;
  - quaternion slerp;
  - what the audio library reports (whether an instance or the stream still plays);
  - the instance the audio library hands back for a new exclusive sound;
  - the current time.

## Model

| member | source | states |
|---|---|---|
| Components.Position.constructor | src/components.rs:16-19 | `pos` and `old_pos` both start at the given point |
| Components.Position.Snapshot | src/components.rs:21-24 | `old_pos` becomes `pos`, `pos` is unchanged, and the drawn position is then `pos` for every alpha |
| Components.Position.DrawPos | src/components.rs:26-29 | alpha 0 gives `pos`; alpha -1 gives `old_pos`; the offset from `pos` is alpha times the last move |
| Components.DrawPosLinear | src/components.rs:26-29 | the drawn position is linear in alpha: one unit of alpha moves it by exactly the last move |
| Utils.Max | src/utils.rs:75-85 | the result is one of the arguments and at least both |
| Utils.Min | src/utils.rs:87-97 | the result is one of the arguments and at most both |
| Utils.Clamp | src/utils.rs:99-113 | below the range gives `min`; above it gives `max`; inside it gives `x`; the result lies in the range whenever `min <= max` |
| Utils.TrimEndMatches | src/utils.rs:430 | the string is the result followed by copies of the character, and the result does not end in it |
| Utils.NiceFloatTrim | src/utils.rs:425-444 | never empty; a string without '.' is kept (an empty one becomes "0"); a string with '.' is `t`, then `k` dots, then `m` zeros, where `t` does not end in '.' and, when `k` is 0, not in '0'; the result is `t`, or "0" when `t` is empty |
| Utils.NiceFloatTrimSplit | src/utils.rs:428-443 | conversely, any such split of a string with '.' gives the trim's result, so the contract above determines it |
| Utils.NiceFloatDropsZeroFraction | src/utils.rs:449 | the "15.00" case of the test gives "15" |
| Utils.NiceFloatZeroIsZero | src/utils.rs:450 | the "0.00" case gives "0" (trimming to empty becomes "0") |
| Utils.NiceFloatKeepsSignificantDigits | src/utils.rs:451-453 | "0.10" gives "0.1" and "-0.11" stays |
| Utils.NiceFloatKeepsIntegerZeros | src/utils.rs:460 | "100" stays (no '.') |
| Utils.NiceFloatTrimsAfterInteger | src/utils.rs:460-461 | "100.10" gives "100.1" and "100.00" gives "100" |
| Utils.NearestLinePointClamps | src/utils.rs:269-291 | the result is the segment point at the projection parameter clamped to [0, 1]: `v1` below 0, `v2` above 1 |
| Utils.NearestLinePointIsNearest | src/utils.rs:269-291 | on a segment longer than 1e-10 (the guard bounds the squared length by 1e-20), no point of the segment is closer to the test point than the result |
| Utils.NearestLinePointBeforeStart | src/utils.rs:468-472 | the test's first case: a point before `v1` gives `v1` |
| Utils.NearestLinePointAfterEnd | src/utils.rs:474-476 | the test's second case: a point past `v2` gives `v2` |
| Utils.NearestLinePointOnSegment | src/utils.rs:478-481 | the test's third case: a point on the segment is its own nearest point |
| Utils.NearestLinePointBeside | src/utils.rs:483-485 | the test's fourth case: (1, 4) projects to (2, 3) |
| Utils.MidpointOfExampleSegment | src/utils.rs:483-485 | every point whose projection parameter is 1/2 gives the midpoint (2, 3) |
| Utils.NearestPolyPoint | src/utils.rs:293-313 | fewer than three vertices panics; otherwise the result is the candidate of some edge with the smallest squared distance, strictly smaller than every earlier edge's (the first edge wins ties) |
| Utils.IsInsidePoly | src/utils.rs:315-337 | fewer than three vertices panics; otherwise true exactly when the test point is strictly on the inner side of every edge of the clockwise polygon |
| Utils.InsideSquare | src/utils.rs:498 | (1, 1) is inside the test's square |
| Utils.OutsideSquare | src/utils.rs:499 | (-1, -1) is not inside the test's square |
| Utils.InsideQuadrilateral | src/utils.rs:501-507 | (0, 0) is inside the test's quadrilateral |
| AStar.Cmp | src/astar.rs:22-29 | the entry with the lower f-score compares greater, so the max-heap pops the lowest score |
| AStar.CmpIsTotalPreorder | src/astar.rs:22-37 | the ordering is antisymmetric and transitive |
| AStar.HeapMaxIsLowestScore | src/astar.rs:26-27 | an entry the heap may pop is one with the lowest f-score in the open set |
| AStar.HeapMaxExists | src/astar.rs:127-129 | a non-empty open set has an entry to pop |
| AStar.NearestIsUnique | src/astar.rs:80-94 | the nearest node is unique: the earliest among those at the smallest distance |
| AStar.Heuristic | src/astar.rs:75-78 | the heuristic from a node to itself is the norm of the zero vector |
| AStar.TreeUpdate | src/astar.rs:158-168 | a strict improvement of `next` through a visited node keeps `came_from` a forest towards the start whose costs increase along every link |
| AStar.SearchUpdate | src/astar.rs:158-170 | the same update, with the push and the best-so-far rule, keeps the whole search invariant |
| AStar.PopKeepsOpen | src/astar.rs:129-131 | popping an entry other than the goal keeps every open entry on a visited node |
| AStar.RelaxedEdgeFacts | src/astar.rs:153-170 | one relaxation changes only `next`, and only when the cost through `cur` is strictly lower; `next` then comes from `cur`, takes that cost, and is pushed with f = g + h; it becomes the best-so-far exactly when its heuristic is strictly lower; either way `next` ends up costing at most the cost through `cur` |
| AStar.RelaxedAllFacts | src/astar.rs:151-172 | over the whole neighbour loop, costs only fall and the open set only grows; a node whose cost fell comes from `cur` and has an open entry at its new cost; a node whose cost did not fall keeps its `came_from`; afterwards every neighbour costs at most `cost[cur]` plus its edge |
| AStar.RelaxedEdgeKeepsSearch | src/astar.rs:153-170 | one relaxation keeps the search invariant (the `came_from` forest, the open entries, the best-so-far), and `cur` stays visited |
| AStar.RelaxedAllKeepsSearch | src/astar.rs:151-172 | the whole neighbour loop keeps the search invariant |
| AStar.RelaxEdge | src/astar.rs:153-170 | the method's outputs are exactly `RelaxedEdge` of its inputs |
| AStar.RelaxNeighbours | src/astar.rs:151-172 | the neighbour loop panics exactly when a neighbour index is out of range; otherwise its outputs are `RelaxedAll` over the neighbour list and keep the search invariant |
| AStar.RelaxKeepsClosed | src/astar.rs:129-172 | popping a node and relaxing its neighbours keeps every visited node either open or expanded (no neighbour would get cheaper through it), and keeps every unvisited node at the reset cost of 1e6 |
| AStar.ExhaustedReachesAlong | src/astar.rs:111-172 | when every visited node is expanded, each node of a path from the start whose prefixes all cost below 1e6 beyond the start's cost is visited, at no more than the start's cost plus the prefix's cost |
| AStar.ExhaustedMissesOnlyDear | src/astar.rs:127-174 | an exhausted search that left the goal unvisited leaves no such cheap path to the goal |
| AStar.WalkStep | src/astar.rs:136-148 | one step of the path reconstruction either reaches the start or extends the walk by a fresh visited node |
| AStar.WalkCloses | src/astar.rs:139-147 | a walk whose last node points at the start forms a complete chain to the start |
| AStar.WalkExtends | src/astar.rs:139-147 | a walk whose last node does not point at the start extends by a new node and its position |
| AStar.AStarContext.constructor | src/astar.rs:65-73 | empty open set, `came_from` all -1 and `cost` all 0 |
| AStar.AStarContext.PosToIdx | src/astar.rs:80-94 | `None` exactly when there are no nodes, otherwise the nearest node (the first of equals) |
| AStar.AStarContext.ResetScratch | src/astar.rs:109-114 | the open set is emptied, `came_from` is all -1 and `cost` is all 1e6 |
| AStar.AStarContext.Reconstruct | src/astar.rs:133-148 | the reconstruction follows `came_from` to the start, returning the first position and then each node's position; it cannot loop forever when costs are positive |
| AStar.AStarContext.Relax | src/astar.rs:151-172 | as `RelaxNeighbours`, on the fields of the context: without a panic the new fields are `RelaxedAll` of the old ones |
| AStar.AStarContext.Seed | src/astar.rs:116-124 | the start costs `heuristic(from, from)`, comes from itself, and is the only open entry; the best-so-far is -1 with the start's heuristic |
| AStar.AStarContext.Search | src/astar.rs:127-173 | a popped goal is visited with an intact forest; an exhausted open set leaves the goal unvisited, every visited node expanded and every unvisited node at cost 1e6; a panic means a neighbour index is out of range; it returns the run it made (`IsRun`): a trace of states from the fields it started from to the ones it leaves, each following from the one before by popping a lowest-f entry that is not the goal and relaxing its neighbours, with at most `fuel` such turns; running out of fuel means exactly `fuel` turns with entries still open, and a popped goal is a lowest-f entry of the last state |
| AStar.AStarContext.Solve | src/astar.rs:102-197 | no nodes panics, and otherwise only an out-of-range neighbour does; the endpoints are the nearest nodes; a reconstruction that never ends (`Hang`) needs a non-positive edge cost; a reached goal gives `to` and then the positions along the `came_from` chain to the start; otherwise the path comes from the visited node nearest the goal by the heuristic, and is empty exactly when no visited node beats the start; in that case no path from the start to the goal has all its prefixes cheaper than 1e6 beyond the start's cost; from == to gives `[to, start]`; the run starts from the seeded state (`Seeded`) and, unless it panicked, ends in the `came_from` and `cost` the path is read from; `OutOfFuel` comes after a run of exactly `fuel` turns that leaves entries open |
| AStar.AStarContext.Fallback | src/astar.rs:174-196 | with the goal unvisited after an exhausted search: the walk from the best-so-far node, or no path exactly when no visited node beats the start by the heuristic; a `Hang` needs a non-positive cost; no path from the start to the goal stays below 1e6 beyond the start's cost at every prefix |
| AStar.AStarContext.PopAndRelax | src/astar.rs:129-172 | one turn past a lowest-f entry that is not the goal: panics exactly when a neighbour index is out of range; otherwise the old and new fields are one step of a run (`PopRelaxes`), and the search invariant, `ClosedIn` and `UnreachedIn` are kept |
| AStar.AStarContext.SeededSearch | src/astar.rs:109-173 | the reset, the seeding and the open-set loop: `Search`'s guarantees, with the run starting from `Seeded` |
| AStar.AStarContext.Conclude | src/astar.rs:131-196 | after the loop: no path exactly when fuel ran out, a panic exactly on an out-of-range neighbour, the walk from the popped goal, or `Fallback` on an exhausted open set |
| AStar.Seeded | src/astar.rs:109-124 | the seeded state: only the start visited, from itself at `heuristic(from, from)`, every other node at -1 and 1e6, the start the only open entry |
| AStar.RunExtends | src/astar.rs:127-172 | a run followed by one more turn is a run one turn longer, with the same first state |
| AStar.RunCostsFall | src/astar.rs:151-172 | along a run, every state costs each node at most what the first state did |
| SceneAnimation.Animation.constructor | slhack/src/scene.rs:93-105 | the tracks as given, `start` and `end` 0 |
| SceneAnimation.Animation.ComputeStartEnd | slhack/src/scene.rs:107-135 | `start` is the least first keyframe time and `end` the greatest last keyframe time over the non-empty tracks; with all tracks empty both keep their values |
| SceneAnimation.TimeRange | slhack/src/scene.rs:109-129 | the `min`/`max`/`valid` locals: valid exactly when some track is non-empty, with the least first and greatest last times |
| SceneAnimation.Include | slhack/src/scene.rs:112-117 | one track's `if` keeps the running minimum, maximum and validity of the times seen so far |
| SceneAnimation.RangeStep | slhack/src/scene.rs:114-115 | `f64::min`/`f64::max` against one more time keeps the running range exact |
| SceneAnimation.AnimationState.constructor | slhack/src/scene.rs:155-169 | both names set; progress and all cursors 0; no loops; no pending reset; not done |
| SceneAnimation.AnimationState.Reset | slhack/src/scene.rs:171-174 | only `need_reset` is set; cursors and names are untouched |
| SceneAnimation.AnimationState.SetNewAnimation | slhack/src/scene.rs:176-179 | only the requested name changes |
| SceneAnimation.StepDecreases | slhack/src/scene.rs:385-439 | a loop pass that moves a cursor makes progress towards termination (a pending rewind clears, or the cursors get closer to their last keyframes) |
| SceneAnimation.AdvanceState | slhack/src/scene.rs:363-440 | a missing animation (looked up under the pre-switch name) panics; a name change or reset adopts the new name and zeroes cursors, progress, done and the reset flag; the loop count starts at 0; the result is the loop's fixed point `Settle`, which panics exactly when a pass does |
| SceneAnimation.RunLoop | slhack/src/scene.rs:385-439 | the `loop` on the state's fields ends in `Settle`'s cursors, or panics exactly when `Settle` does |
| SceneAnimation.Pass | slhack/src/scene.rs:387-432 | one pass of the loop body equals the spec step `Step` |
| SceneAnimation.MoveCursor | slhack/src/scene.rs:391-398 | a cursor outside its track panics; otherwise it moves one keyframe on, up to the last, when the progress is past the keyframe under it |
| SceneAnimation.ScaleWithoutPosPanics | slhack/src/scene.rs:407-413 | the scale branch indexes the pos track, so a scale track without a pos track panics |
| SceneAnimation.StepAtEnd | slhack/src/scene.rs:415-432 | past `end`: a one-shot state becomes done with progress kept, a looping state rewinds all cursors and subtracts `end`; the loop count grows by one unless done |
| SceneAnimation.StepMovesForward | slhack/src/scene.rs:391-414 | before `end` a pass moves pos by at most 2 (1 without a scale track) and rot by at most 1, never past the last keyframe, and leaves scale alone |
| SceneAnimation.SettleLoops | slhack/src/scene.rs:365-432 | over the loop the count never falls and grows by at most 2 (at most 1 for a one-shot state, which is then done) |
| SceneAnimation.SettleKeepsScale | slhack/src/scene.rs:407-431 | the scale cursor only ever returns to 0, and a one-shot state never changes it |
| SceneAnimation.SettledCursorsInRange | slhack/src/scene.rs:385-439 | after the loop the pos and rot cursors index their tracks |
| SceneAnimation.SampleTrack | slhack/src/scene.rs:237-255 | an empty track gives the object's base value; a bad cursor panics; equal keyframe times give a non-finite result; on the last keyframe its value |
| SceneAnimation.SampleMeetsKeyframes | slhack/src/scene.rs:248-254 | interpolation meets the keyframes at their times and its fraction stays in [0, 1] between them |
| SceneAnimation.PoseAt | slhack/src/scene.rs:237-295 | it panics exactly when a cursor cannot index its non-empty track; each empty track gives the object's own value |
| SceneAnimation.GetAnimationPosition | slhack/src/scene.rs:227-296 | a missing animation panics; otherwise the pose at the state's cursors |
| SceneAnimation.SettledPoseDoesNotPanic | slhack/src/scene.rs:227-296 | when the call does not switch animations (so the loop settles against the animation that is then sampled), sampling after a loop that did not panic does not panic |
| SceneAnimation.SwitchedPoseCanPanic | slhack/src/scene.rs:369-375 | a switch with `amount` 1.5 from pos keyframes at 0, 1 and 2 settles the pos cursor at 2; sampling the new animation, which has one pos keyframe, then panics |
| SceneAnimation.CursorRestsAfterProgress | slhack/src/scene.rs:385-439 | with pos keyframes at 0, 1 and 2, `end` 2 and progress 0.5, the loop moves the pos cursor from 0 to 1, the first keyframe at or after the progress, and stops there |
| SceneAnimation.SampleBetween | slhack/src/scene.rs:237-255 | with the cursor before the last keyframe and distinct keyframe times, the sample is the linear interpolation at the fraction of the way from the cursor keyframe's time to the next one's |
| SceneAnimation.BetweenKeyframesExtrapolates | slhack/src/scene.rs:237-255 | at pos cursor 1 and progress 0.5 on keyframes (0, origin), (1, (2,0,0)), (2, (6,0,0)), the fraction is -0.5 and the sample is the origin, neither the midpoint nor a keyframe |
| SceneAnimation.RewindThenMoves | slhack/src/scene.rs:415-438 | a looping pass from the last keyframe at progress 2.5 with `end` 2 rewinds to progress 0.5 with one loop, and the next pass moves the pos cursor to 1 instead of stopping |
| SceneAnimation.HalfwayHoldsLastKeyframe | slhack/src/scene.rs:391-398 | at progress 0.5 on keyframes at 0 and 1 the pos cursor moves to the second keyframe, so the pose is that keyframe, not the midpoint |
| SceneMesh.Weld | slhack/src/scene.rs:1123-1137 | each vertex gets the number of its key in order of first appearance, and `firsts` lists the first vertex of each key |
| SceneMesh.WeldSameKey | slhack/src/scene.rs:1123-1137 | two vertices get the same new index exactly when their keys agree |
| SceneMesh.WeldNumbersInOrder | slhack/src/scene.rs:1130-1135 | the vertex that introduced each smaller new index comes earlier |
| SceneMesh.Insert | slhack/src/scene.rs:1175-1176 | inserting into a strictly increasing list keeps it strictly increasing, with the element added |
| SceneMesh.SortDedup | slhack/src/scene.rs:1175-1176 | `sort` then `dedup` gives a strictly increasing list of the same elements |
| SceneMesh.IncreasingUnique | slhack/src/scene.rs:1175-1176 | a strictly increasing list is determined by its elements |
| SceneMesh.Welded | slhack/src/scene.rs:1148-1159 | one welded triangle per index triple |
| SceneMesh.AroundSymmetric | slhack/src/scene.rs:1147-1161 | sharing a triangle is symmetric |
| SceneMesh.AroundHasSelf | slhack/src/scene.rs:1147-1161 | a node is around itself exactly when some triangle has it as a corner |
| SceneMesh.AroundWithoutSelf | slhack/src/scene.rs:1147-1161 | a node that is a corner of no triangle has no neighbours |
| SceneMesh.AroundBounded | slhack/src/scene.rs:1147-1161 | corners in range give neighbours in range |
| SceneMesh.Keys | slhack/src/scene.rs:1116-1129 | one quantised key per vertex |
| SceneMesh.GetNavmesh | slhack/src/scene.rs:1104-1183 | it panics exactly when the index buffer is not whole triples, an index is out of range, or a welded vertex is in no triangle; otherwise one node per welded vertex, at its first vertex's position, with the other corners of its triangles as sorted, distinct neighbours |
| SceneMesh.Others | slhack/src/scene.rs:1167-1174 | the neighbour candidates other than the node itself |
| SceneMesh.Neighbourhoods | slhack/src/scene.rs:1147-1161 | the neighbour map holds exactly the nodes that are corners, each with the corners of its triangles |
| SceneMesh.CoversStep | slhack/src/scene.rs:1150-1160 | adding one triangle's corners keeps the map exact for the triangles so far |
| SceneMesh.AddCorners | slhack/src/scene.rs:1150-1160 | the three `extend`s of one triangle add its corners to each corner's list |
| SceneMesh.AddTriangle | slhack/src/scene.rs:1152-1159 | `entry(corner).or_insert(vec![]).extend(triangle)` adds the triangle's corners to that key alone |
| SceneMesh.InRange | slhack/src/scene.rs:1153-1158 | the range test of the index loop |
| SceneMesh.NavmeshIsGraph | slhack/src/scene.rs:1163-1183 | the nodes built form a graph the A\* solver can search: neighbours in range, no self-loops, a symmetric relation |
| SceneMesh.ObjVertex | slhack/src/scene.rs:538-569 | the vertex of a corner exists exactly when its indices are in range; missing texture coordinates and normals become 0; `uv2` is 0 |
| SceneMesh.ObjCorners | slhack/src/scene.rs:531-577 | three corners per triangle, in order |
| SceneMesh.LoadObjGeometry | slhack/src/scene.rs:524-577 | a non-triangle or an out-of-range index panics; otherwise the corners are welded by index triple in first-appearance order, one vertex per distinct corner |
| SceneMesh.CollectCorners | slhack/src/scene.rs:531-577 | the shape loop gives the corners of the triangles, or panics at a non-triangle |
| SceneMesh.ObjKind | slhack/src/scene.rs:519-522 | "Navmesh" is not implemented; a name starting "Collision" gives a collision mesh, anything else a multi-mesh |
| SceneMesh.GltfKind | slhack/src/scene.rs:787-946 | a glTF node is a navmesh by name, else a light if it has one, else a mesh (collision by name prefix), else empty; the five cases are exclusive |
| SceneMesh.LoadersAgreeOnMeshKinds | slhack/src/scene.rs:916-923 | both loaders classify a mesh as a collision mesh by the same name test |
| SceneMesh.Triples | slhack/src/scene.rs:1003 | `chunks(3)` of a buffer of whole triples |
| SceneMesh.ClipIndices | slhack/src/scene.rs:1000-1017 | it panics exactly when the buffer is not whole triples or has an index out of range; otherwise it keeps the triangles whose centre passes the filter |
| SceneMesh.TriplesIn | slhack/src/scene.rs:1003-1007 | indices in range give triangles in range |
| SceneMesh.KeptTriangles | slhack/src/scene.rs:1003-1016 | a triangle is in the new buffer exactly when it was in the old one and its centre passes the filter; the buffer stays whole triples and does not grow |
| SceneMesh.Flatten | slhack/src/scene.rs:1015 | three indices per triangle |
| SceneMesh.FlattenTriples | slhack/src/scene.rs:1003-1016 | reading triples and writing them back gives the buffer |
| SceneMesh.KeptAll | slhack/src/scene.rs:1013-1016 | a filter that keeps everything keeps the whole buffer |
| SceneMesh.ClipMeshes | slhack/src/scene.rs:974-1045 | `clip_meshes` is the object-by-object clipping `ClipObjects` |
| SceneMesh.ClipObjectKind | slhack/src/scene.rs:983-1032 | the match on the kind is `ClipKind`: a collision mesh panics, mesh lists are clipped, other kinds are copied |
| SceneMesh.ClipMeshListNone | slhack/src/scene.rs:999-1029 | a panic in a prefix of the meshes is a panic of the whole list |
| SceneMesh.ClipObjectsNone | slhack/src/scene.rs:981-1042 | a panic in a prefix of the objects is a panic of the whole scene |
| SceneMesh.ClipObjectsShape | slhack/src/scene.rs:981-1042 | it panics exactly when some object's kind does; otherwise the objects keep their order and data, each with its clipped kind |
| SceneMesh.ClipMeshListShape | slhack/src/scene.rs:997-1031 | every mesh keeps its vertices and material; only its index buffer is clipped |
| Sprite.PaddedMs | example3d/src/sprite.rs:110-119 | the padded durations are non-empty and at least as long as the frame list |
| Sprite.PadFrameMs | example3d/src/sprite.rs:110-119 | the push loop gives `PaddedMs` |
| Sprite.PaddedKeeps | example3d/src/sprite.rs:110-119 | given durations are kept; an empty list starts at 100; the length is the larger of the two; the padding repeats the last value |
| Sprite.DefaultDesc | example3d/src/sprite.rs:95-105 | the default animation is every frame of the sheet, numbered from 1 |
| Sprite.WithDefault | example3d/src/sprite.rs:95-105 | "Default" is added only when missing; other animations are untouched |
| Sprite.LoadAnimation | example3d/src/sprite.rs:110-128 | an animation loads exactly when its frame numbers are in the sheet, with padded durations, the sheet's frames and the summed duration |
| Sprite.Load | example3d/src/sprite.rs:95-134 | the sprite loads exactly when every animation, "Default" included, has its frames in the sheet; each is loaded as `LoadAnimation` says |
| Sprite.DefaultLoads | example3d/src/sprite.rs:95-119 | the default animation always loads, with 100 ms per frame |
| Sprite.LoadIsLoaded | example3d/src/sprite.rs:107-129 | a loaded sprite has durations covering every frame and one loaded frame per frame number; positive given durations stay positive |
| Sprite.PaddedPositive | example3d/src/sprite.rs:110-119 | padding positive durations keeps them positive |
| Sprite.GetFrame | example3d/src/sprite.rs:180-196 | a missing animation or a frame index outside it panics; otherwise the frame and the offset `-(w/2, h/2) - centre offset` |
| Sprite.AnimationState.constructor | example3d/src/sprite.rs:266-276 | both names set, no progress, frame 0, no counts |
| Sprite.AnimationState.SetNewAnimation | example3d/src/sprite.rs:278-281 | only the requested name changes |
| Sprite.AnimationState.GetNumActivations | example3d/src/sprite.rs:283-289 | the count of a tracked active frame, else 0 |
| Sprite.Bump | example3d/src/sprite.rs:238-244 | a move adds one to exactly the counts whose active frame is the new index |
| Sprite.RunFrames | example3d/src/sprite.rs:232-249 | the frame loop panics exactly when the cursor cannot index the durations, or it must move with no frames or with an untracked active frame; otherwise it ends as `RunOutcome` says |
| Sprite.FrameLoop | example3d/src/sprite.rs:233-249 | the `while` loop ends after the warranted moves, with progress at most the current frame's duration |
| Sprite.MoveFrame | example3d/src/sprite.rs:235-248 | one iteration: subtract the frame's duration, step the cursor modulo the frame count, bump counts, and count a loop on the last frame |
| Sprite.RunStep | example3d/src/sprite.rs:233-249 | one more iteration extends the run description by exactly one move |
| Sprite.ZeroCounts | example3d/src/sprite.rs:200-203 | the counts are zeroed, keys kept |
| Sprite.AdvanceState | example3d/src/sprite.rs:198-250 | the animation is looked up under the new name (missing panics); a switch resets the frame, keeps the progress and starts tracking the new active frames; all counts start at 0; the result is the frame loop's outcome |
| Sprite.RunOutcomeUnique | example3d/src/sprite.rs:233-249 | the loop's outcome is determined by its inputs |
| Sprite.WithinFrameStays | example3d/src/sprite.rs:233 | progress within the current frame moves nothing |
| Sprite.FirstMoves | example3d/src/sprite.rs:236-248 | from frame 0, k < n moves land on frame k, and on each frame 1..k once |
| Sprite.FullCycle | example3d/src/sprite.rs:236-248 | n moves from frame 0 return to frame 0, land on every frame once, and count one loop |
| Sprite.MovedFrameExists | example3d/src/sprite.rs:180-196 | after a run the cursor names a frame `get_frame` can return |
| Ui.IsSelected | slhack/src/ui.rs:655-664 | only a selectable widget can be selected |
| Ui.SetSelected | slhack/src/ui.rs:666-675 | the flag is set on buttons, sliders and toggles; a label is unchanged |
| Ui.HitHasWidth | slhack/src/ui.rs:227-229 | a point inside the box means the scaled box has positive width |
| Ui.ButtonInput | slhack/src/ui.rs:223-269 | accept on a selected button gives its action; then cancel on a Back button gives Back; then a mouse move over it gives "select me" and a button release over it gives its action; otherwise nothing |
| Ui.Trigger | slhack/src/ui.rs:360-365 | the new value is `(value + 1) % len` over the texts, so it steps to the next text and wraps to 0; the action is made from the new value; no texts panics (`% 0`) |
| Ui.ToggleInput | slhack/src/ui.rs:323-358 | accept when selected, or a button release over it, triggers; a mouse move over it gives "select me"; otherwise nothing |
| Ui.TriggerReply | slhack/src/ui.rs:360-365 | the trigger as an input reply |
| Ui.ToggleCycles | slhack/src/ui.rs:363 | k triggers from a valid value advance it by k modulo the number of texts |
| Ui.Round | slhack/src/ui.rs:414 | `f32::round`: the nearest integer, halves away from zero |
| Ui.Snap | slhack/src/ui.rs:412-415 | the position rounded to a multiple of `round_to` (kept as is when `round_to` is 0) |
| Ui.MousePosBetween | slhack/src/ui.rs:500-501 | under the mouse the unrounded position lies between the bounds |
| Ui.SliderInput | slhack/src/ui.rs:463-531 | Left/Right step by `round_to` within the bounds and round, making the action; only the position and grab flag change; the grab flag becomes set only on a button press; no answer leaves the position. Without a key step: motion over the box while grabbed moves to the rounded mouse position with its action, and while not grabbed asks to be selected; a press over the box grabs, moves there and makes the action; any release lets go with no action; anything else changes nothing |
| Ui.WidgetInput | slhack/src/ui.rs:688-699 | dispatch by widget kind; a label never answers |
| Ui.InputKeepsSelection | slhack/src/ui.rs:688-699 | an input keeps a widget's kind, box and selection flag; only a selectable widget answers; only an empty toggle panics |
| Ui.ScanLeft | slhack/src/ui.rs:789-796 | the backwards scan finds a selectable cell exactly when the row has one |
| Ui.LeftOf | slhack/src/ui.rs:821-833 | Left lands on a selectable cell |
| Ui.RightOf | slhack/src/ui.rs:834-846 | Right lands on a selectable cell |
| Ui.LeftRightInverse | slhack/src/ui.rs:821-846 | Left undoes Right and Right undoes Left |
| Ui.ScanRowLeft | slhack/src/ui.rs:789-796 | the `for` loop is `ScanLeft`, and leaves the column when nothing is found |
| Ui.StepLeft | slhack/src/ui.rs:821-833 | the Left loop ends on `LeftOf` |
| Ui.StepRight | slhack/src/ui.rs:834-846 | the Right loop ends on `RightOf` |
| Ui.VMove | slhack/src/ui.rs:780-797 | the Up/Down search lands only on selectable cells |
| Ui.VMoveArrives | slhack/src/ui.rs:780-819 | from a selectable cell the search never runs out of rows, and with no empty row it arrives |
| Ui.StepRow | slhack/src/ui.rs:782-806 | the wrapping row step of Up and Down is the previous or the next row in the cycle of rows |
| Ui.VerticalMove | slhack/src/ui.rs:777-820 | the `'found` loop ends where `VMove` does, never stuck |
| Ui.Navigate | slhack/src/ui.rs:775-847 | Up, Down, Left, Right in order; the selection stays on a selectable cell; a panic needs Up or Down and an empty row |
| Ui.ScanRow | slhack/src/ui.rs:760-773 | asking a row keeps its flags; a hit is on a selectable cell |
| Ui.ScanGrid | slhack/src/ui.rs:758-774 | asking the grid keeps its flags; a hit is a valid selection |
| Ui.AskWidgets | slhack/src/ui.rs:758-774 | the nested `'got_action` loops are `ScanGrid` |
| Ui.RowHitIsFirst | slhack/src/ui.rs:760-772 | the cell that answered is the first; earlier cells stayed silent; later ones were not asked |
| Ui.RowMissAll | slhack/src/ui.rs:760-773 | no answer means every cell was asked and stayed silent |
| Ui.GridHitIsFirst | slhack/src/ui.rs:758-774 | the answering cell is the first in row-major order; cells after it are unchanged |
| Ui.Reselect | slhack/src/ui.rs:848-849 | clearing and setting the flags keeps the grid's shape |
| Ui.ListInputKeeps | slhack/src/ui.rs:752-851 | an input keeps the grid's shape and selectability, and keeps exactly the selected cell flagged |
| Ui.ListInputValid | slhack/src/ui.rs:752-851 | an input that does not panic leaves the selection on a selectable cell |
| Ui.ReselectKeeps | slhack/src/ui.rs:848-849 | moving the flag leaves exactly the new cell flagged |
| Ui.FirstCell | slhack/src/ui.rs:715-727 | the first selectable cell in row-major order, or none exactly when there is none |
| Ui.MarkSelected | slhack/src/ui.rs:729-732 | flagging one cell keeps the grid's shape |
| Ui.NewOnlySelected | slhack/src/ui.rs:711-739 | from unflagged widgets, `new` leaves exactly the first selectable cell flagged |
| Ui.WidgetList.New | slhack/src/ui.rs:711-739 | no selectable widget panics; otherwise the first one is selected and flagged |
| Ui.WidgetList.Input | slhack/src/ui.rs:752-851 | the grid, selection and answer become those of `ListInput`; the selection stays valid |
| Ui.RunInput | slhack/src/ui.rs:752-851 | the body on values equals `ListInput` |
| Ui.FindFirst | slhack/src/ui.rs:715-727 | the nested loops find `FirstCell` |
| Ui.FirstCellIs | slhack/src/ui.rs:715-727 | a selectable cell with nothing selectable before it is the first |
| Ui.Navigation | slhack/src/ui.rs:775-847 | the four `if`s equal `Navigate` |
| Sfx.AddInstance | slhack/src/sfx.rs:138-156 | a new name gets a one-element list; a known one grows only below 10; otherwise the instance is dropped |
| Sfx.AddKeepsBounded | slhack/src/sfx.rs:13 | no list grows past `MAX_INSTANCES` |
| Sfx.Retain | slhack/src/sfx.rs:84 | `retain` keeps exactly the playing instances |
| Sfx.RetainAll | slhack/src/sfx.rs:82-85 | every sample keeps its key |
| Sfx.RetainKeepsBounded | slhack/src/sfx.rs:82-85 | retaining keeps the cap, and only playing instances remain |
| Sfx.Enqueue | slhack/src/sfx.rs:276 | `insert(0, name)` puts the name at the front |
| Sfx.EnqueueAll | slhack/src/sfx.rs:274-278 | enqueuing grows the queue by the number of names |
| Sfx.DequeueAll | slhack/src/sfx.rs:127 | k pops take k names |
| Sfx.ExclusiveFifo | slhack/src/sfx.rs:109-133 | exclusive sounds start in the order they were requested |
| Sfx.DequeueReverse | slhack/src/sfx.rs:127 | popping the whole queue gives it reversed |
| Sfx.FadeInUnit | slhack/src/sfx.rs:97-98 | over the fade time the factor falls from 1 to 0 |
| Sfx.OpenStream | slhack/src/sfx.rs:292-303 | the stream plays the current track |
| Sfx.Regain | slhack/src/sfx.rs:305-314 | an open stream's gain becomes volume × factor × fade; no stream stays none |
| Sfx.UpdateMusic | slhack/src/sfx.rs:86-107 | past the deadline the pending track becomes current, is cleared, opens at gain volume × factor, and the fade is 1; before it the fade is the fraction of the fade time left and the gain follows; a stopped stream reopens unless its track plays once |
| Sfx.PlayThenUpdate | slhack/src/sfx.rs:86-100 | a requested track takes over after its deadline; before it the old one plays with a fade in [0, 1] |
| Sfx.RetainInstances | slhack/src/sfx.rs:82-85 | the loop over the lists gives `RetainAll` |
| Sfx.Sfx.constructor | slhack/src/sfx.rs:38-64 | nothing playing, an empty track looping at factor 1, fade 1, and the volumes stored |
| Sfx.Sfx.AddSampleInstance | slhack/src/sfx.rs:138-156 | the map becomes `AddInstance`; nothing else changes |
| Sfx.Sfx.PlayExclusiveSound | slhack/src/sfx.rs:274-278 | the queue becomes `Enqueue`; nothing else changes |
| Sfx.Sfx.PlayMusic | slhack/src/sfx.rs:280-290 | the track becomes pending with deadline now + 0.1; the current music plays on |
| Sfx.Sfx.SetSfxVolume | slhack/src/sfx.rs:316-319 | only the value is stored |
| Sfx.Sfx.SetMusicVolume | slhack/src/sfx.rs:305-314 | the value is stored and an open stream is regained |
| Sfx.Sfx.StartMusic | slhack/src/sfx.rs:292-303 | a new stream for the current track at volume × factor |
| Sfx.Sfx.UpdateSounds | slhack/src/sfx.rs:80-136 | lists keep their playing instances; the music fields follow `UpdateMusic`; with sounds waiting and no exclusive sound playing, the oldest request starts; otherwise the queue is unchanged |
| Sfx.Sfx.UpdateMusicFields | slhack/src/sfx.rs:86-107 | the music fields follow `UpdateMusic` |
| Sfx.Sfx.NextExclusive | slhack/src/sfx.rs:109-133 | the last queued name starts exactly when the queue is non-empty and no exclusive instance plays |

## Left out

- Floating point. Every `f32`/`f64` is a real: there is no rounding, NaN or infinity.
  - The scene keyframe times are bounded by `f64::MAX`, because `compute_start_end` starts from `f64::MAX`/`f64::MIN`.
  - An equal pair of keyframe times gives an explicit non-finite sample.
- Integer width. `i32` overflow of cursors and counters is not modelled, because no realistic input reaches it. The `usize` underflow of `row_len - 1` on an empty row is modelled, as a panic (debug-build semantics).
- I/O and foreign code, none of which are part of this model:
  - reading OBJ and glTF files;
  - `load_config` and material descriptions;
  - `create_buffers`;
  - bitmaps and the atlas;
  - rendering (`draw`, `draw_frame`, `resize` and its layout arithmetic);
  - `transform_mouse` (events arrive already in menu coordinates);
  - the menu key tables;
  - the game loop.
- The Rust `Result` errors of the loaders and of `get_navmesh` (no mesh, no primitive) are not modelled; the model starts from the parsed data.
- Audio:
  - actual playback and the pitch jitter from `thread_rng`;
  - positional volume and pan;
  - the blocking `fade_out`;
  - the sample cache;
  - the UI click sounds.
  - `start_music` and the exclusive sound are assumed to load and play. In the source a failed load returns an error after the exclusive name has already been popped.
  - `update_sounds` reads the clock twice; the model takes one `now`.
- Sfx.UpdateSounds is weaker than the source in its inputs. `playing` is one snapshot of what the audio library reports, used for both the retain and the exclusive check, and `streamPlaying` is what it reports for the stream after the swap.
- Sprite.Load: the sheet arrives already cut into frames, and the width/height defaulting from the bitmap is not modelled.
- Sprite.AdvanceState requires positive durations. With a zero duration the source can loop forever, and the model does not represent non-termination.
- AStar.AStarContext.Solve runs with a fuel bound on the turns of the open-set loop that relax a node, which the source does not have. Running out of fuel is an explicit `OutOfFuel` outcome. The returned run shows it comes after exactly `fuel` such turns from the seeded state, with entries still open. What the source does after those turns is not described.
- A\* details:
  - `NodeAndScore`'s `PartialEq` recurses on itself and is never used for ordering, so it is not modelled.
  - Heap ties are arbitrary: any lowest-score entry may be popped.
- SceneAnimation.GetAnimationPosition: slerp of quaternions is a parameter, and rotation interpolation is not checked beyond that.
- The scene `get_num_loops` and `is_done`, and the sprite `get_num_loops`, are plain field reads. `draw_frame_from_state` and `get_frame_from_state` forward to `draw_frame` and `get_frame`.
- Ui.Snap: a `round_to` of 0 keeps the position as is, where `f32` arithmetic would give NaN.
- Widgets are values inside the list's grid. A widget's `input` returns the updated widget instead of mutating it.

## Notes on the source

- `solve` in `src/astar.rs` uses the reset cost 1e6 (line 113) as "unreached", and relaxes only on a strict improvement (line 158). A node whose every path from the start costs 1e6 or more beyond the start's cost is therefore never visited. `ExhaustedMissesOnlyDear` states what an exhausted search does guarantee.

- `advance_state` in `slhack/src/scene.rs`:
  - It counts at most two wraps per call. Once a looping state rewinds all cursors to 0 while the progress is still past `end`, the next pass leaves them unchanged, so the loop stops. A rewind that leaves the progress at or below `end` lets the cursors move again on the next pass (`RewindThenMoves`).
  - The position cursor comes to rest on the first keyframe at or after the progress, not on the keyframe before it (`CursorRestsAfterProgress`). With the progress between keyframes k and k+1, the sample therefore extrapolates back from k+1 with a negative fraction, except when k+1 is the last keyframe, where the sample is that keyframe (`BetweenKeyframesExtrapolates`).
  - The scale branch tests and moves the position cursor against the position track (lines 409-413). As a result, a scale track without a position track panics.
  - The animation is looked up under the name from before the switch, and the cursors are settled against that animation's tracks.
  - `get_animation_position` then samples the animation under the new name (lines 231 and 243). A cursor settled on the old tracks can be out of range for the new ones, so the sample panics (`SwitchedPoseCanPanic`). A new name with no animation panics at line 231.
- `advance_state` in `example3d/src/sprite.rs`:
  - It looks the animation up under the new name.
  - It does not reset `frame_progress` on a switch.
  - It panics when a tracked active frame from an earlier animation is missing from the new one and the frame cursor moves.
