/** The animation frame of quadtree.js:211-308 and the state it works on:
    the list of bodies, the canvas size and the root square of the quadtree
    (quadtree.js:316-323). The mouse, the random samples and the frame time
    are passed in; drawing and the on-screen counters are not modelled,
    except that a frame returns the three figures it displays. */
module Simulation {
  import opened Geometry
  import opened QuadTree
  import opened Collision
  import opened Motion

  /** `cands` holds, for every body, what its query returns in `tree`, and
      every such candidate is one of the bodies with its shape. */
  predicate QueriedFrom(tree: Tree, shapes: seq<Disc>, cands: seq<seq<Item>>)
  {
    |cands| == |shapes| &&
    forall k {:trigger Probe(shapes[k])} :: 0 <= k < |shapes| ==>
      cands[k] == Query(tree, Probe(shapes[k])) &&
      forall f <- cands[k] :: f.id < |shapes| && f.disc == shapes[f.id]
  }

  class Scene {
    /** The bodies, in the order they were spawned. */
    var circles: seq<Circle>
    const width: real
    const height: real
    /** Root square of every frame's quadtree: the top-left square of the
        canvas whose side is the canvas height. */
    const boundary: AABB

    constructor(width: real, height: real)
      ensures circles == [] && this.width == width && this.height == height
      ensures boundary == AABB(height / 2.0, height / 2.0, height / 2.0)
    {
      this.width := width;
      this.height := height;
      var half := height / 2.0;
      boundary := AABB(half, half, half);
      circles := [];
    }

    /** A body appears under the mouse (quadtree.js:217-238). */
    method Spawn(mouseX: real, mouseY: real, u1: real, u2: real)
      modifies this
      ensures circles == old(circles) + [Spawned(mouseX, mouseY, u1, u2, width, height)]
    {
      var c := Spawned(mouseX, mouseY, u1, u2, width, height);
      circles := circles + [c];
    }

    /** Clears every flag and inserts every body, in order, into a fresh
        quadtree over the root square (quadtree.js:241-246). */
    method ClearAndBuild() returns (tree: Tree)
      modifies this
      ensures |circles| == |old(circles)|
      ensures forall k :: 0 <= k < |circles| ==> circles[k] == old(circles)[k].(isColided := false)
      ensures tree == Build(boundary, ItemsOf(Shapes(old(circles))))
    {
      ghost var items := ItemsOf(Shapes(circles));
      tree := Leaf(boundary, []);
      var i := 0;
      while i < |circles|
        invariant 0 <= i <= |circles| == |old(circles)|
        invariant forall k :: 0 <= k < |circles| ==>
          circles[k] == if k < i then old(circles)[k].(isColided := false) else old(circles)[k]
        invariant tree == Build(boundary, items[..i])
      {
        circles := circles[i := circles[i].(isColided := false)];
        assert items[..i + 1][..i] == items[..i];
        tree := Insert(tree, Item(i, circles[i].Shape())).0;
        i := i + 1;
      }
      assert items[..i] == items;
    }

    /** Body i scans its candidates `found` (quadtree.js:252-265): its own
        entry is skipped, every other candidate is counted, and the first
        one whose disc meets its own flags both bodies and ends the scan.
        Starting from flags that mark the set `hits`, it ends with flags
        that mark the scan specification's set, having examined the scan
        specification's count of candidates. */
    method ScanCandidates(i: nat, found: seq<Item>, ghost hits: set<nat>) returns (examined: nat, ghost after: set<nat>)
      modifies this
      requires i < |circles|
      requires forall f <- found :: f.id < |circles| && f.disc == circles[f.id].Shape()
      requires forall k :: 0 <= k < |circles| ==> (circles[k].isColided <==> k in hits)
      ensures Tally(after, examined) == Scan(i, old(circles)[i].Shape(), found, hits)
      ensures |circles| == |old(circles)|
      ensures forall k :: 0 <= k < |circles| ==> circles[k] == old(circles)[k].(isColided := k in after)
    {
      var c := circles[i];
      ghost var scan := Scan(i, c.Shape(), found, hits);
      after := hits;
      examined := 0;
      var j := 0;
      while j < |found|
        invariant 0 <= j <= |found|
        invariant circles == old(circles)
        invariant Scan(i, c.Shape(), found[j..], hits).flagged == scan.flagged
        invariant examined + Scan(i, c.Shape(), found[j..], hits).examined == scan.examined
      {
        var fc := found[j];
        assert found[j..][0] == fc && found[j..][1..] == found[j + 1..];
        if fc.id != i {
          examined := examined + 1;
          if Intersects(c.Shape(), circles[fc.id].Shape()) {
            circles := circles[i := circles[i].(isColided := true)];
            circles := circles[fc.id := circles[fc.id].(isColided := true)];
            after := hits + {i, fc.id};
            return;
          }
        }
        j := j + 1;
      }
    }

    /** Body i queries the square around itself, one unit wider than its
        radius on every side (quadtree.js:250-251); what it finds is its
        candidate list. */
    method SearchAround(i: nat, tree: Tree, ghost shapes: seq<Disc>, ghost cands: seq<seq<Item>>)
      returns (foundCircles: seq<Item>)
      requires i < |circles| == |shapes|
      requires circles[i].Shape() == shapes[i]
      requires QueriedFrom(tree, shapes, cands)
      ensures foundCircles == cands[i]
      ensures forall f <- foundCircles :: f.id < |shapes| && f.disc == shapes[f.id]
    {
      var c := circles[i];
      var searchedAABB := AABB(c.x, c.y, c.r + 1.0);
      assert searchedAABB == Probe(shapes[i]);
      foundCircles := QueryRange(tree, searchedAABB);
    }

    /** Body i queries around itself and scans what it finds. Given the
        flags and the count after bodies 0 .. i-1, it leaves the flags and
        the count after bodies 0 .. i. */
    method CheckBody(i: nat, tree: Tree, ghost shapes: seq<Disc>, ghost cands: seq<seq<Item>>, ghost before: Tally)
      returns (examined: nat, ghost after: set<nat>)
      modifies this
      requires i < |circles| == |shapes| == |cands|
      requires forall k :: 0 <= k < |circles| ==> circles[k].Shape() == shapes[k]
      requires forall k :: 0 <= k < |circles| ==> (circles[k].isColided <==> k in before.flagged)
      requires before == Detect(shapes, cands, i)
      requires QueriedFrom(tree, shapes, cands)
      ensures Detect(shapes, cands, i + 1) == Tally(after, before.examined + examined)
      ensures |circles| == |old(circles)|
      ensures forall k :: 0 <= k < |circles| ==> circles[k] == old(circles)[k].(isColided := k in after)
    {
      var found := SearchAround(i, tree, shapes, cands);
      examined, after := ScanCandidates(i, found, before.flagged);
    }

    /** Each body in turn queries the square around itself and scans what
        it finds (quadtree.js:249-266). The candidates are those of the
        specification, every candidate is one of the bodies, and no body is
        flagged yet; the bodies end flagged as the specification flags them,
        and the count of candidates examined is the specification's count. */
    method ScanAll(tree: Tree, ghost shapes: seq<Disc>, ghost cands: seq<seq<Item>>) returns (detections: nat)
      modifies this
      requires |shapes| == |circles| && |cands| == |shapes|
      requires forall k :: 0 <= k < |circles| ==> circles[k].Shape() == shapes[k] && !circles[k].isColided
      requires QueriedFrom(tree, shapes, cands)
      ensures |circles| == |old(circles)|
      ensures forall k :: 0 <= k < |circles| ==>
        circles[k] == old(circles)[k].(isColided := k in Detect(shapes, cands, |shapes|).flagged)
      ensures detections == Detect(shapes, cands, |shapes|).examined
    {
      ghost var hits: set<nat> := {};
      detections := 0;
      var i := 0;
      while i < |circles|
        invariant 0 <= i <= |circles| == |shapes|
        invariant forall k :: 0 <= k < |circles| ==> circles[k] == old(circles)[k].(isColided := k in hits)
        invariant Tally(hits, detections) == Detect(shapes, cands, i)
      {
        var examined;
        examined, hits := CheckBody(i, tree, shapes, cands, Tally(hits, detections));
        detections := detections + examined;
        i := i + 1;
      }
    }

    /** The collision pass (quadtree.js:240-266): clear every flag while
        inserting every body into a fresh quadtree, then let each body
        query around itself and scan its candidates. The bodies keep their
        positions and velocities; a body is flagged exactly when the pass
        specification flags it, and the number of candidates examined is
        the pass specification's count. */
    method DetectCollisions() returns (detections: nat)
      modifies this
      ensures |circles| == |old(circles)|
      ensures forall k :: 0 <= k < |circles| ==>
        circles[k] == old(circles)[k].(isColided := k in Pass(Shapes(old(circles)), boundary).flagged)
      ensures detections == Pass(Shapes(old(circles)), boundary).examined
    {
      ghost var shapes := Shapes(circles);
      var tree := ClearAndBuild();
      ghost var cands := Candidates(tree, shapes);
      CandidatesAreBodies(shapes, boundary);
      detections := ScanAll(tree, shapes, cands);
    }

    /** Every body moves for dt seconds, reflecting off the canvas edges
        (quadtree.js:276-293). */
    method Integrate(dt: real)
      modifies this
      ensures |circles| == |old(circles)|
      ensures forall k :: 0 <= k < |circles| ==> circles[k] == Move(old(circles)[k], dt, width, height)
    {
      var i := 0;
      while i < |circles|
        invariant 0 <= i <= |circles| == |old(circles)|
        invariant forall k :: 0 <= k < |circles| ==>
          circles[k] == if k < i then Move(old(circles)[k], dt, width, height) else old(circles)[k]
      {
        circles := circles[i := Move(circles[i], dt, width, height)];
        i := i + 1;
      }
    }

    /** One frame (quadtree.js:211-308): spawn under the mouse while it is
        held, detect collisions, move, and report the particle count, the
        number of candidates examined and the brute-force pair count. */
    method Run(mouseIsDown: bool, mouseX: real, mouseY: real, u1: real, u2: real, dt: real)
      returns (particles: nat, detections: nat, bruteforce: nat)
      modifies this
      ensures var before := if mouseIsDown then old(circles) + [Spawned(mouseX, mouseY, u1, u2, width, height)]
                            else old(circles);
              var pass := Pass(Shapes(before), boundary);
              |circles| == |before| &&
              (forall k :: 0 <= k < |circles| ==>
                 circles[k] == Move(before[k].(isColided := k in pass.flagged), dt, width, height)) &&
              detections == pass.examined
      ensures var before := if mouseIsDown then old(circles) + [Spawned(mouseX, mouseY, u1, u2, width, height)]
                            else old(circles);
              forall k :: 0 <= k < |circles| && circles[k].isColided ==> Collides(Shapes(before), k)
      ensures particles == |circles| && bruteforce == particles * particles
      ensures detections <= bruteforce
    {
      if mouseIsDown {
        Spawn(mouseX, mouseY, u1, u2);
      }
      ghost var before := circles;
      detections := DetectCollisions();
      PassCountBound(Shapes(before), boundary);
      forall k | k in Pass(Shapes(before), boundary).flagged ensures Collides(Shapes(before), k) {
        PassSound(Shapes(before), boundary, k);
      }
      Integrate(dt);
      particles := |circles|;
      bruteforce := particles * particles;
    }
  }
}
