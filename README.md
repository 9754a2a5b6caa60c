# Quadtree collision detection, modelled in Dafny

This project models the core of `quadtree.js`, a browser demo. Each frame it
spawns circles under the mouse, builds a region quadtree over the canvas and
finds colliding circles. To do that, each circle asks the quadtree for the
circles near it and then tests each candidate with an exact disc–disc test.
Finally the circles are moved, bouncing off the canvas edges.

The project has five modules:

- `Geometry` (`geometry.dfy`) holds the three predicates the demo is built
  on. `ContainsCircle` is an inclusive overlap test between a circle's
  bounding box and a square. `IntersectsAABB` is a strict square–square
  overlap test. `Intersects` is the narrow-phase disc test.
- `QuadTree` (`quadtree.dfy`) is the region quadtree with capacity 3.
  - Insertion is a function that returns the new tree and a three-way
    status: `Rejected`, `Stored` or `Lost`. `Lost` is the source's
    "never should be called" branch.
  - Subdivision and the range query are modelled as well. `QueryRange`
    is a method with the source's loop, proved equal to the function
    `Query`.
  - `Build` inserts a list of items in order.
  - The proved properties are:
    - the shape invariant `WellFormed`;
    - the error branch is unreachable;
    - the first-quadrant tie-break;
    - every item is stored exactly once;
    - the query is complete over the root square.
- `Collision` (`collision.dfy`) specifies one collision pass as a function
  of the bodies' shapes. `Scan` is one body's scan, `Detect` runs the scans
  for a prefix of the bodies, and `Pass` is the whole pass. The module
  proves three things:
  - soundness: every flagged body meets (overlaps or touches) another body;
  - flagging: a body is flagged whenever its own query returns a body it
    meets, and so is the first such body;
  - the bound: the number of candidates examined never exceeds the n²
    brute-force figure the demo displays.

  It also shows five bodies for which the pass as written misses a colliding
  pair. With a corrected query, the pass flags a body exactly when it meets
  another body (see Findings).
- `Motion` (`motion.dfy`) covers spawning and moving:
  - the spawn velocity and the clamp that pushes a new circle back onto
    the canvas;
  - the per-axis integrator, which reflects at the edges, with the
    inverted Y axis.
- `Simulation` (`simulation.dfy`) holds the class `Scene`: the list of
  bodies, the canvas size and the root square. Its methods follow the
  loops of `run` step by step:
  - clear the flags and build the tree;
  - query and scan for each body;
  - integrate.

  Each method is proved against the specification functions above, and
  `Run` ties one whole frame to `Pass` and `Move`.

Bodies are records in a sequence, and a tree item is a body's index together
with its shape. The source compares circle objects by identity (`c == fc`);
here that becomes a comparison of indices. Coordinates are exact reals.
The source compares a square root with `r1 + r2`. Here that test is written
as `r1 + r2 >= 0 && dx² + dy² <= (r1 + r2)²`, and `DistanceForm` proves the
two forms equal.

The spawn velocity is `Math.random() * (100 + 50) + -50`, which lies in
[-50, 100); `SpawnVelocityRange` proves that range.

## Model

| member | source | states |
|---|---|---|
| Geometry.ContainsCircle | quadtree.js:31-39 | definition: the disc's bounding box and the square overlap on both axes, edges included; ContainsCircleWithin and QuadrantsCover state its properties |
| Geometry.IntersectsAABB | quadtree.js:41-47 | definition: the centres are closer than the sum of the half sides on both axes; IntersectsAABBSymmetric and IntersectsAABBByEdges state its properties |
| Geometry.Intersects | quadtree.js:12-19 | definition: the squared distance of the centres is at most the squared radius sum, which is non-negative; DistanceForm ties it to the square-root test and IntersectsSymmetric states its symmetry |
| Geometry.IntersectsAABBSymmetric | quadtree.js:41-47 | square overlap is symmetric |
| Geometry.IntersectsAABBByEdges | quadtree.js:41-47 | square overlap holds iff the open extents overlap on both axes (strict: touching squares do not overlap) |
| Geometry.ContainsCircleWithin | quadtree.js:31-39 | a disc overlapping a square overlaps every square that contains it (inclusive test) |
| Geometry.WithinIntersects | quadtree.js:41-47 | a positive square inside another strictly overlaps it |
| Geometry.IntersectsSymmetric | quadtree.js:12-19 | the narrow phase is symmetric in its two discs |
| Geometry.DistanceForm | quadtree.js:12-19 | for the centre distance d, the squared test holds iff d <= r1 + r2, touching included |
| Geometry.IntersectsAxes | quadtree.js:12-19 | discs that meet are at most r1 + r2 apart on each axis |
| Geometry.Widened | quadtree.js:129 | supports the corrected query of the Findings row (the source has no widening; line 129 is the pruning test it replaces): the square widened by a margin, each edge moved out by the margin |
| Geometry.WidenedOverlap | quadtree.js:129 | supports the corrected query of the Findings row (the source has no widening): a disc overlapping two squares, with diameter below the margin, makes the first square widened by the margin strictly overlap the second |
| QuadTree.QuadrantBox | quadtree.js:90-121 | definition: the square of each quadrant, with half the half side and the centre moved by that amount; QuadrantWithin and QuadrantsCover state its properties |
| QuadTree.Subdivide | quadtree.js:90-121 | definition: the node keeps its square and holdings and gets four empty leaves over the quadrant squares; QuadrantWithin, QuadrantsCover and SubdivideWellFormed state its properties |
| QuadTree.QuadrantWithin | quadtree.js:90-121 | each quadrant is a positive square inside its parent |
| QuadTree.SubdivideWellFormed | quadtree.js:90-121 | subdividing a full well-formed leaf gives a well-formed node |
| QuadTree.EmptyLeafWellFormed | quadtree.js:53-61 | a fresh node over a positive square is well formed |
| QuadTree.Insert | quadtree.js:63-88 | outside the square: Rejected and unchanged; the square is kept; the node's own list grows by the item exactly when a leaf with room stores it, and is otherwise never changed (placement is sticky); the result is a leaf iff the item went into a leaf with room or was rejected by a leaf |
| QuadTree.InsertWellFormed | quadtree.js:63-88 | insertion keeps the shape invariant: at most CAPACITY own holdings, each overlapping the node, internal nodes full with quadrant children |
| QuadTree.QuadrantsCover | quadtree.js:80-87 | a disc of non-negative radius overlapping a square overlaps the first quadrant in NW, NE, SW, SE order that it can |
| QuadTree.NegativeRadiusEscapesQuadrants | quadtree.js:80-87 | with a negative radius a disc can overlap a square and none of its quadrants, so the radius condition is needed |
| QuadTree.InsertNeverLost | quadtree.js:80-87 | in a well-formed tree, with a non-negative radius, insertion stores the circle iff the root square contains it; the error branch is never taken |
| QuadTree.InsertIntoFirstQuadrant | quadtree.js:80-85 | a full node keeps its own list and passes the circle to the first overlapping quadrant only, leaving the other three children unchanged |
| QuadTree.InsertElements | quadtree.js:63-88 | the multiset of items grows by the item when it is stored and is otherwise unchanged: nothing is lost, duplicated or dropped |
| QuadTree.Filter | quadtree.js:133-137 | definition: the holdings that overlap the range, in order; FilterSound, FilterKeeps and FilterAll state its properties |
| QuadTree.FilterSound | quadtree.js:133-137 | every item kept overlaps the range, and the result is a sub-multiset of the node's holdings |
| QuadTree.FilterKeeps | quadtree.js:133-137 | every holding that overlaps the range is kept |
| QuadTree.FilterAll | quadtree.js:133-137 | when every holding overlaps the range, all are kept in order |
| QuadTree.CollectOwn | quadtree.js:133-137 | the loop over the node's own holdings returns exactly Filter of them, in order |
| QuadTree.Query | quadtree.js:125-151 | definition: nothing when the square misses the range strictly, else the own matches then the NW, NE, SW, SE results; QuerySound and QueryCovering state its properties, MissedPair shows its gap |
| QuadTree.QuerySound | quadtree.js:125-151 | every item returned overlaps the range, and the result is a sub-multiset of the items in the tree |
| QuadTree.QueryRange | quadtree.js:125-151 | the method returns exactly Query: empty when the square misses the range, else own matches then the NW, NE, SW, SE results |
| QuadTree.QueryFromTree | quadtree.js:125-151 | every item found is held in the tree |
| QuadTree.QueryCovering | quadtree.js:125-151 | a range covering a well-formed tree's square returns all its items in the tree's order |
| QuadTree.Build | quadtree.js:241-246 | definition: an empty root over the square, then one insertion per item in order; BuildHoldsAll, BuildElementsFrom and BuildSize state its properties |
| QuadTree.BuildHoldsAll | quadtree.js:241-246 | inserting bodies inside the root square in order gives a well-formed tree holding each body exactly once |
| QuadTree.BuildThenQueryAll | quadtree.js:241-251 | querying the whole root square of such a tree returns each body exactly once |
| QuadTree.BuildElementsFrom | quadtree.js:241-246 | a built tree holds only items it was built from |
| QuadTree.BuildSize | quadtree.js:241-246 | a built tree holds at most as many items as were inserted |
| QuadTree.ElementsOverlapBox | quadtree.js:63-88 | every item held in a well-formed tree overlaps the tree's square |
| QuadTree.QueryLoose | quadtree.js:125-151 | corrected query: as Query, but a subtree is skipped only when its square widened by the margin misses the range; QueryLooseComplete states its property |
| QuadTree.QueryLooseNoMargin | quadtree.js:125-151 | with margin 0 the corrected query is the query as written |
| QuadTree.QueryLooseSound | quadtree.js:125-151 | the corrected query returns only items that overlap the range and are held in the tree |
| QuadTree.QueryLooseComplete | quadtree.js:124-151 | the corrected query finds every held item that overlaps the range, when the margin exceeds every diameter held |
| Collision.Probe | quadtree.js:250 | definition: the square centred on the body with half side r + 1; ProbeMeets states its property |
| Collision.NonSelf | quadtree.js:252-258 | the number of candidates other than the body itself is at most the number of candidates |
| Collision.Candidates | quadtree.js:249-251 | definition: the candidate list of each body is the query of its probe square; CandidatesAreBodies, PassSound and PassFlagsBoth state its properties |
| Collision.Scan | quadtree.js:252-265 | definition: skip the body's own entry, count each other candidate, and stop at the first that meets the body, flagging both; ScanResult and ScanStopsAtFirstHit state its meaning |
| Collision.Detect | quadtree.js:249-266 | definition: the flags and count after the first n bodies have scanned their candidates in order; DetectSound, DetectFlags, DetectMonotone, DetectFlagsBoth and DetectCountBound state its properties |
| Collision.Pass | quadtree.js:240-266 | definition: Detect over all bodies, with the candidates the queries return in the tree built from the bodies; PassSound, PassFlags, PassFlagsBoth, PassCountBound and MissedPair state its properties |
| Collision.ScanResult | quadtree.js:252-265 | when another candidate meets the body, the body and one such candidate are flagged and between one and all other candidates are counted; otherwise the flags are unchanged and every other candidate is counted |
| Collision.ScanStopsAtFirstHit | quadtree.js:252-265 | the scan stops at the first non-self candidate that meets the body, flags exactly those two and counts the other candidates up to it |
| Collision.ScanSound | quadtree.js:252-265 | a scan over the bodies' own items flags only bodies that meet another body |
| Collision.DetectSound | quadtree.js:249-266 | every flag set by the first n scans is justified |
| Collision.BuiltItemIsBody | quadtree.js:241-246 | every item in the built tree is a body with its shape |
| Collision.CandidatesAreBodies | quadtree.js:249-251 | every candidate of the pass is a body with its shape |
| Collision.PassSound | quadtree.js:240-266 | a body flagged by the pass meets some other body |
| Collision.PassNoCollisions | quadtree.js:240-266 | when no two bodies meet, the pass flags nothing |
| Collision.DetectFlags | quadtree.js:249-266 | a body whose candidates hold another body it meets is flagged at the end of the scans |
| Collision.ScanGrows | quadtree.js:252-265 | a scan only adds flags, never clears one |
| Collision.DetectMonotone | quadtree.js:249-266 | flags only grow as the outer loop advances: a flag set by any scan is still set at the end of the pass |
| Collision.DetectFlagsBoth | quadtree.js:258-263 | when a body's first hit is the candidate at k, both the body and that partner are flagged at the end of all the scans |
| Collision.PassFlagsBoth | quadtree.js:240-266 | the whole pass flags both a body and the first body its query returns that it meets |
| Collision.PassFlags | quadtree.js:249-266 | a body is flagged whenever its own query returns another body that it meets |
| Collision.DetectCountBound | quadtree.js:252-258 | with at most m candidates per body, n scans examine at most n * m candidates |
| Collision.PassCountBound | quadtree.js:305-307 | the detection count never exceeds the displayed brute-force count n * n |
| Collision.MissedPair | quadtree.js:63-151 | five bodies of radius 10 in the square of side 100: bodies 3 and 4 meet, yet the pass as written flags nothing and counts nothing |
| Collision.DetectSelfOnly | quadtree.js:252-265 | scans in which every body finds only itself flag nothing and count nothing |
| Collision.ProbeMeets | quadtree.js:250 | a body's probe square overlaps the box of every body it meets |
| Collision.LooseCandidates | quadtree.js:249-251 | definition: the candidate list of each body is the corrected query of its probe square; LooseCandidatesAreBodies and LooseFindsNeighbour state its properties |
| Collision.LooseCandidatesAreBodies | quadtree.js:249-251 | every candidate of the corrected pass is a body with its shape |
| Collision.BuiltHoldsBodies | quadtree.js:241-246 | the tree built from bodies of non-negative radius inside the root square is well formed and holds every body |
| Collision.BuiltDiametersBelow | quadtree.js:241-246 | every item of the built tree has a diameter below the margin when every body does |
| Collision.LooseFindsNeighbour | quadtree.js:249-251 | with the corrected query, a body's candidates include every body it meets |
| Collision.PassLooseExact | quadtree.js:240-266 | with the corrected query and a margin above every diameter, a body is flagged iff it meets another body |
| Collision.MissedPairFound | quadtree.js:240-266 | the corrected pass flags both bodies of the missed pair |
| Motion.SpawnVelocity | quadtree.js:218-219 | definition: a uniform sample scaled by 150 and shifted by -50; SpawnVelocityRange states its range |
| Motion.ClampAxis | quadtree.js:223-236 | beyond the far edge the disc is moved to touch it; otherwise beyond the near edge it is moved to touch that; otherwise the coordinate is unchanged |
| Motion.ClampAxisInside | quadtree.js:223-236 | on a canvas at least one diameter wide, the clamped disc lies inside, and a disc already inside is not moved |
| Motion.SpawnVelocityRange | quadtree.js:218-219 | a sample in [0, 1) gives a velocity component in [-50, 100) |
| Motion.Spawned | quadtree.js:217-237 | definition: a new body with radius 10, no flag and clamped coordinates; SpawnedInside states where it lands and its velocity range |
| Motion.SpawnedInside | quadtree.js:217-237 | a spawned body lies inside a canvas at least 20 wide and high, with velocities in [-50, 100) |
| Motion.Move | quadtree.js:276-293 | moving keeps the radius, the flag and the speed on each axis |
| Motion.AxisStep | quadtree.js:277-292 | definition: the proposed position, or on an edge hit the flipped velocity and the step it gives; AxisStepReflects and AxisStepStaysInside state its meaning |
| Motion.AxisStepReflects | quadtree.js:277-292 | when the proposed position touches an edge, the velocity flips and the body ends at the mirror image of the proposal about its old position; otherwise it takes the proposal |
| Motion.AxisStepStaysInside | quadtree.js:277-292 | a body strictly inside whose step plus radius is under half the extent stays strictly inside |
| Motion.MoveStaysInside | quadtree.js:276-293 | the same on both axes for a whole move |
| Motion.LeftEdgeBounce | quadtree.js:277-286 | x = 2, r = 5, vx = -40, dt = 0.1 gives x = 6 and vx = 40 |
| Simulation.Scene.constructor | quadtree.js:316-323 | no bodies, and the root square is centred at (h/2, h/2) with half side h/2 for canvas height h |
| Simulation.Scene.Spawn | quadtree.js:217-237 | the spawned body is appended to the bodies |
| Simulation.Scene.ClearAndBuild | quadtree.js:241-246 | every flag is cleared, nothing else changes, and the tree is Build of the bodies in order |
| Simulation.Scene.ScanCandidates | quadtree.js:252-265 | the flags and count after one body's loop are those of Scan; only flags change |
| Simulation.Scene.SearchAround | quadtree.js:250-251 | the body's query returns its candidate list, all of them bodies |
| Simulation.Scene.CheckBody | quadtree.js:249-265 | one iteration of the outer loop advances the flags and count from Detect(i) to Detect(i + 1) |
| Simulation.Scene.ScanAll | quadtree.js:249-266 | the outer loop leaves the flags and count of Detect over all bodies |
| Simulation.Scene.DetectCollisions | quadtree.js:240-266 | positions and velocities are kept, a body is flagged iff Pass flags it, and the count is Pass's count |
| Simulation.Scene.Integrate | quadtree.js:276-293 | every body is replaced by its Move |
| Simulation.Scene.Run | quadtree.js:211-308 | one frame equals spawn, Pass, then Move for every body; every flag is justified by a real collision; the displayed figures are the body count, the pass's count and the body count squared, and the count is at most the brute-force figure |

## Left out

- Drawing the tree and the circles (`draw`, `drawBoxes`, `drawCircles`, the call in `run`) is not modelled: it is canvas output with no logic to verify.
- DOM lookups, mouse handlers and the `setInterval` scheduling are I/O. The mouse state is an argument of `Scene.Run`.
- `Math.random()` and `new Date()` are not modelled. The two random samples and the frame time `dt` are arguments.
- The FPS counter is UI telemetry. The other three counters are returned by `Scene.Run` rather than written to the page.
- The `console.log` of the error branch is not modelled. The branch is the `Lost` status, and it is proved unreachable for non-negative radii.
- The source's `insert` returns a boolean. The model separates its `false` into `Rejected` and `Lost`.
- IEEE double arithmetic, `Math.sqrt` and `Math.pow` are not modelled. Coordinates are exact reals, so rounding effects are not captured.
- QuadTree.Insert: the quadtree is a value, and insertion returns the updated tree. The source updates nodes in place. Tree nodes are never shared, so the in-place update is not captured, and nothing else is lost.
- Simulation.Scene.DetectCollisions: circles are records in a sequence rather than shared objects, and a tree item is a snapshot of a body's shape. Flags are written back through the index. The shapes cannot go stale, because positions change only in the integrator.
- Collision.Pass: all queries are computed before any scan. The flags never affect a query, so the queries are the ones the source makes.
- Collision.PassFlags, QuadTree.Query: no claim that the broad phase as written finds every pair of touching bodies, because it does not (see Findings). Only the weaker statement is proved: a body is flagged when its own query returns a body it meets.

## Findings

| source | as written | input that shows it | evidently intended | confidence | as-written member | corrected member |
|---|---|---|---|---|---|---|
| quadtree.js:63-151 | a circle is placed in the first quadrant its box overlaps, so its box can reach beyond that quadrant's square; the query skips a subtree whose own square does not strictly overlap the range, so such circles are missed | root square centred at (50, 50) with half side 50; bodies of radius 10 at (15, 15), (85, 15), (15, 85), then A at (65, 55) and B at (55, 65). A goes to NE, B to SW; B's probe misses NE and A's probe misses SW, so neither is flagged although their centres are about 14.1 apart | the query finds every stored circle that overlaps the range (comment at quadtree.js:124), so every colliding body is flagged | high (all values small integers), not executed | Collision.MissedPair | QuadTree.QueryLooseComplete, Collision.PassLooseExact |

The corrected query prunes against each node's square widened by a margin
above every diameter held (21 for the spawn radius of 10). The `Scene`
methods keep modelling the source as written. The corrected pass is a
separate specification, `Collision.PassLoose`.
