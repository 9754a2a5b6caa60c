/** The collision pass of quadtree.js:240-266 as a specification: every body
    is inserted into a fresh quadtree over the root square, then each body
    queries a square around itself and scans the candidates in order,
    counting each candidate other than itself and stopping at the first one
    whose disc meets its own. The pass yields the set of flagged bodies
    (by index) and the number of candidates examined. */
module Collision {
  import opened Geometry
  import opened QuadTree

  /** The shapes of a list of bodies. */
  function Shapes(cs: seq<Circle>): (s: seq<Disc>)
    ensures |s| == |cs| && forall k :: 0 <= k < |cs| ==> s[k] == cs[k].Shape()
  {
    seq(|cs|, k requires 0 <= k < |cs| => cs[k].Shape())
  }

  /** The items inserted into the tree: each body's index with its shape. */
  function ItemsOf(shapes: seq<Disc>): (items: seq<Item>)
    ensures |items| == |shapes| && forall k :: 0 <= k < |shapes| ==> items[k] == Item(k, shapes[k])
  {
    seq(|shapes|, k requires 0 <= k < |shapes| => Item(k, shapes[k]))
  }

  /** The square a body searches: centred on it, with half side one more
      than its radius (quadtree.js:250). */
  function Probe(c: Disc): AABB
  {
    AABB(c.x, c.y, c.r + 1.0)
  }

  /** What a scan or a pass produces: the indices of the flagged bodies and
      the number of candidates examined (the source's `detections`). */
  datatype Tally = Tally(flagged: set<nat>, examined: nat)

  /** Some candidate other than body `self` meets the disc `c`. */
  predicate Hit(self: nat, c: Disc, found: seq<Item>)
  {
    exists f <- found :: f.id != self && Intersects(c, f.disc)
  }

  /** Number of candidates other than body `self`. */
  function NonSelf(self: nat, found: seq<Item>): (n: nat)
    ensures n <= |found|
  {
    if found == [] then 0
    else (if found[0].id == self then 0 else 1) + NonSelf(self, found[1..])
  }

  /** The scan of body `self`'s candidates (quadtree.js:252-265): its own
      entry is skipped, every other candidate is counted, and the first one
      that meets `c` flags both bodies and ends the scan. Returns the flagged
      set and the count. */
  function Scan(self: nat, c: Disc, found: seq<Item>, hits: set<nat>): Tally
  {
    if found == [] then Tally(hits, 0)
    else if found[0].id == self then Scan(self, c, found[1..], hits)
    else if Intersects(c, found[0].disc) then Tally(hits + {self, found[0].id}, 1)
    else
      var rest := Scan(self, c, found[1..], hits);
      rest.(examined := rest.examined + 1)
  }

  /** The candidates of every body: what its query returns in `tree`
      (quadtree.js:250-251). The queries do not depend on the flags, so
      running them all before the scans changes nothing. */
  function Candidates(tree: Tree, shapes: seq<Disc>): (cands: seq<seq<Item>>)
    ensures |cands| == |shapes|
    ensures forall k :: 0 <= k < |shapes| ==> cands[k] == Query(tree, Probe(shapes[k]))
  {
    seq(|shapes|, k requires 0 <= k < |shapes| => Query(tree, Probe(shapes[k])))
  }

  /** The flags and the count after bodies 0 .. n-1 have scanned their
      candidates in order. */
  function Detect(shapes: seq<Disc>, cands: seq<seq<Item>>, n: nat): Tally
    requires |cands| == |shapes| && n <= |shapes|
  {
    if n == 0 then Tally({}, 0)
    else
      var before := Detect(shapes, cands, n - 1);
      var scan := Scan(n - 1, shapes[n - 1], cands[n - 1], before.flagged);
      Tally(scan.flagged, before.examined + scan.examined)
  }

  /** One whole collision pass over bodies with the given shapes, in a
      quadtree rooted at `world`. */
  function Pass(shapes: seq<Disc>, world: AABB): Tally
  {
    Detect(shapes, Candidates(Build(world, ItemsOf(shapes)), shapes), |shapes|)
  }

  /** Body x meets some other body. */
  predicate Collides(shapes: seq<Disc>, x: nat)
  {
    x < |shapes| && exists y :: 0 <= y < |shapes| && y != x && Intersects(shapes[x], shapes[y])
  }

  // ---------------------------------------------------------------------
  // Properties of the scan
  // ---------------------------------------------------------------------

  /** What a scan does: when some other candidate meets the body, the body
      and one such candidate are added to the flags and between one and all
      of the other candidates are counted; otherwise the flags stay as they
      were and every other candidate is counted. */
  lemma {:induction false} ScanResult(self: nat, c: Disc, found: seq<Item>, hits: set<nat>)
    ensures var r := Scan(self, c, found, hits);
            (Hit(self, c, found) ==>
               1 <= r.examined <= NonSelf(self, found) &&
               exists f <- found :: f.id != self && Intersects(c, f.disc) && r.flagged == hits + {self, f.id}) &&
            (!Hit(self, c, found) ==> r.flagged == hits && r.examined == NonSelf(self, found))
  {
    if found != [] {
      ScanResult(self, c, found[1..], hits);
      assert found == [found[0]] + found[1..];
      if found[0].id == self || !Intersects(c, found[0].disc) {
        assert Hit(self, c, found) == Hit(self, c, found[1..]);
      }
    }
  }

  /** The scan ends exactly at the first candidate that is not the body
      itself and meets it: both are flagged and the count is the number of
      other candidates up to and including that one. */
  lemma {:induction false} ScanStopsAtFirstHit(self: nat, c: Disc, found: seq<Item>, hits: set<nat>, k: nat)
    requires k < |found| && found[k].id != self && Intersects(c, found[k].disc)
    requires !Hit(self, c, found[..k])
    ensures Scan(self, c, found, hits) == Tally(hits + {self, found[k].id}, NonSelf(self, found[..k]) + 1)
  {
    if k > 0 {
      assert found[1..][..k - 1] == found[..k][1..];
      assert found[..k][0] == found[0];
      assert found[0] in found[..k];
      assert !Hit(self, c, found[1..][..k - 1]) by {
        forall f <- found[1..][..k - 1] ensures !(f.id != self && Intersects(c, f.disc)) {
          assert f in found[..k];
        }
      }
      ScanStopsAtFirstHit(self, c, found[1..], hits, k - 1);
    }
  }

  // ---------------------------------------------------------------------
  // Properties of the pass
  // ---------------------------------------------------------------------

  /** An item of a tree built from the bodies names a body and carries that
      body's shape. */
  lemma BuiltItemIsBody(shapes: seq<Disc>, world: AABB, x: Item)
    requires x in Elements(Build(world, ItemsOf(shapes)))
    ensures x.id < |shapes| && x.disc == shapes[x.id]
  {
    BuildElementsFrom(world, ItemsOf(shapes), x);
  }

  /** A scan of candidates that are the bodies' own items flags only bodies
      that meet another body. */
  lemma ScanSound(shapes: seq<Disc>, i: nat, found: seq<Item>, hits: set<nat>)
    requires i < |shapes|
    requires forall x <- found :: x.id < |shapes| && x.disc == shapes[x.id]
    requires forall x <- hits :: Collides(shapes, x)
    ensures forall x <- Scan(i, shapes[i], found, hits).flagged :: Collides(shapes, x)
  {
    ScanResult(i, shapes[i], found, hits);
    if Hit(i, shapes[i], found) {
      var f :| f in found && f.id != i && Intersects(shapes[i], f.disc) &&
               Scan(i, shapes[i], found, hits).flagged == hits + {i, f.id};
      IntersectsSymmetric(shapes[i], f.disc);
      assert Collides(shapes, i);
      assert Collides(shapes, f.id) by {
        assert Intersects(shapes[f.id], shapes[i]);
      }
    }
  }

  /** Every flag the first n scans set is justified, provided every
      candidate is one of the bodies' own items. */
  lemma {:induction false} DetectSound(shapes: seq<Disc>, cands: seq<seq<Item>>, n: nat)
    requires |cands| == |shapes| && n <= |shapes|
    requires forall k :: 0 <= k < |shapes| ==> forall x <- cands[k] :: x.id < |shapes| && x.disc == shapes[x.id]
    ensures forall x <- Detect(shapes, cands, n).flagged :: Collides(shapes, x)
  {
    if n > 0 {
      DetectSound(shapes, cands, n - 1);
      ScanSound(shapes, n - 1, cands[n - 1], Detect(shapes, cands, n - 1).flagged);
    }
  }

  /** Every candidate of the pass is one of the bodies, with its shape. */
  lemma CandidatesAreBodies(shapes: seq<Disc>, world: AABB)
    ensures forall k :: 0 <= k < |shapes| ==>
      forall f <- Candidates(Build(world, ItemsOf(shapes)), shapes)[k] :: f.id < |shapes| && f.disc == shapes[f.id]
  {
    var tree := Build(world, ItemsOf(shapes));
    var cands := Candidates(tree, shapes);
    forall k: int, f: Item | 0 <= k < |shapes| && f in cands[k] ensures f.id < |shapes| && f.disc == shapes[f.id] {
      QueryFromTree(tree, Probe(shapes[k]), f);
      BuiltItemIsBody(shapes, world, f);
    }
  }

  /** Soundness of the pass: a flagged body meets another body. */
  lemma PassSound(shapes: seq<Disc>, world: AABB, x: nat)
    requires x in Pass(shapes, world).flagged
    ensures Collides(shapes, x)
  {
    var cands := Candidates(Build(world, ItemsOf(shapes)), shapes);
    CandidatesAreBodies(shapes, world);
    assert forall k :: 0 <= k < |shapes| ==> forall f: Item <- cands[k] :: f.id < |shapes| && f.disc == shapes[f.id];
    DetectSound(shapes, cands, |shapes|);
  }

  /** No flags where no two bodies meet. */
  lemma PassNoCollisions(shapes: seq<Disc>, world: AABB)
    requires forall x, y :: 0 <= x < |shapes| && 0 <= y < |shapes| && x != y ==> !Intersects(shapes[x], shapes[y])
    ensures Pass(shapes, world).flagged == {}
  {
    forall x <- Pass(shapes, world).flagged ensures false {
      PassSound(shapes, world, x);
    }
  }

  /** A scan only adds flags. */
  lemma {:induction false} ScanGrows(self: nat, c: Disc, found: seq<Item>, hits: set<nat>)
    ensures hits <= Scan(self, c, found, hits).flagged
  {
    ScanResult(self, c, found, hits);
  }

  /** Flags only grow as the outer loop advances: a flag, once set, stays
      to the end of the pass. */
  lemma {:induction false} DetectMonotone(shapes: seq<Disc>, cands: seq<seq<Item>>, m: nat, n: nat)
    requires |cands| == |shapes| && m <= n <= |shapes|
    ensures Detect(shapes, cands, m).flagged <= Detect(shapes, cands, n).flagged
    decreases n - m
  {
    if m < n {
      DetectMonotone(shapes, cands, m, n - 1);
      ScanGrows(n - 1, shapes[n - 1], cands[n - 1], Detect(shapes, cands, n - 1).flagged);
    }
  }

  /** When body x's first hit among its candidates is the candidate at k,
      both x and that candidate are flagged at the end of all the scans
      (quadtree.js:261-262). */
  lemma DetectFlagsBoth(shapes: seq<Disc>, cands: seq<seq<Item>>, x: nat, k: nat)
    requires |cands| == |shapes| && x < |shapes|
    requires k < |cands[x]| && cands[x][k].id != x && Intersects(shapes[x], cands[x][k].disc)
    requires !Hit(x, shapes[x], cands[x][..k])
    ensures x in Detect(shapes, cands, |shapes|).flagged
    ensures cands[x][k].id in Detect(shapes, cands, |shapes|).flagged
  {
    ScanStopsAtFirstHit(x, shapes[x], cands[x], Detect(shapes, cands, x).flagged, k);
    DetectMonotone(shapes, cands, x + 1, |shapes|);
  }

  /** The pass flags both a body and the first body its query returns that
      it meets, so the partner's flag survives the later scans. */
  lemma PassFlagsBoth(shapes: seq<Disc>, world: AABB, x: nat, k: nat)
    requires x < |shapes|
    requires var found := Query(Build(world, ItemsOf(shapes)), Probe(shapes[x]));
             k < |found| && found[k].id != x && Intersects(shapes[x], found[k].disc) &&
             !Hit(x, shapes[x], found[..k])
    ensures x in Pass(shapes, world).flagged
    ensures Query(Build(world, ItemsOf(shapes)), Probe(shapes[x]))[k].id in Pass(shapes, world).flagged
  {
    DetectFlagsBoth(shapes, Candidates(Build(world, ItemsOf(shapes)), shapes), x, k);
  }

  /** The first n scans flag every body x < n whose candidates hold another
      body that it meets. */
  lemma {:induction false} DetectFlags(shapes: seq<Disc>, cands: seq<seq<Item>>, n: nat, x: nat)
    requires |cands| == |shapes| && x < n <= |shapes|
    requires Hit(x, shapes[x], cands[x])
    ensures x in Detect(shapes, cands, n).flagged
  {
    var before := Detect(shapes, cands, n - 1);
    ScanResult(n - 1, shapes[n - 1], cands[n - 1], before.flagged);
    if x < n - 1 {
      DetectFlags(shapes, cands, n - 1, x);
    }
  }

  /** Body x is flagged whenever its query returns another body that its
      disc meets. */
  lemma PassFlags(shapes: seq<Disc>, world: AABB, x: nat)
    requires x < |shapes|
    requires Hit(x, shapes[x], Query(Build(world, ItemsOf(shapes)), Probe(shapes[x])))
    ensures x in Pass(shapes, world).flagged
  {
    DetectFlags(shapes, Candidates(Build(world, ItemsOf(shapes)), shapes), |shapes|, x);
  }

  /** The count after n scans is at most m per body when no body has more
      than m candidates. */
  lemma {:induction false} DetectCountBound(shapes: seq<Disc>, cands: seq<seq<Item>>, n: nat, m: nat)
    requires |cands| == |shapes| && n <= |shapes|
    requires forall k :: 0 <= k < |shapes| ==> |cands[k]| <= m
    ensures Detect(shapes, cands, n).examined <= n * m
  {
    if n > 0 {
      DetectCountBound(shapes, cands, n - 1, m);
      ScanResult(n - 1, shapes[n - 1], cands[n - 1], Detect(shapes, cands, n - 1).flagged);
      assert n * m == (n - 1) * m + m;
    }
  }

  /** The pass never examines more candidates than the brute-force count of
      n * n pairs that the source displays beside it (quadtree.js:307). */
  lemma PassCountBound(shapes: seq<Disc>, world: AABB)
    ensures Pass(shapes, world).examined <= |shapes| * |shapes|
  {
    var tree := Build(world, ItemsOf(shapes));
    var cands := Candidates(tree, shapes);
    BuildSize(world, ItemsOf(shapes));
    forall k | 0 <= k < |shapes| ensures |cands[k]| <= |shapes| {
      var found, all := multiset(cands[k]), multiset(Elements(tree));
      assert cands[k] == Query(tree, Probe(shapes[k]));
      QuerySound(tree, Probe(shapes[k]));
      assert found <= all;
      assert all == found + (all - found);
    }
    DetectCountBound(shapes, cands, |shapes|, |shapes|);
  }

  // ---------------------------------------------------------------------
  // A pair the broad phase misses
  // ---------------------------------------------------------------------

  /** Five bodies of radius 10 in a root square of side 100. The first three
      fill the root; A (index 3) goes to NE although its box reaches below
      the NE square, and B (index 4) goes to SW although its box reaches
      right of the SW square. */
  function MissedPairShapes(): seq<Disc>
  {
    [Disc(15.0, 15.0, 10.0), Disc(85.0, 15.0, 10.0), Disc(15.0, 85.0, 10.0),
     Disc(65.0, 55.0, 10.0), Disc(55.0, 65.0, 10.0)]
  }

  /** The tree those bodies build over the square centred at (50, 50) with
      half side 50. */
  function MissedPairTree(): Tree
  {
    Node(AABB(50.0, 50.0, 50.0),
         [Item(0, Disc(15.0, 15.0, 10.0)), Item(1, Disc(85.0, 15.0, 10.0)), Item(2, Disc(15.0, 85.0, 10.0))],
         Leaf(AABB(25.0, 25.0, 25.0), []), Leaf(AABB(75.0, 25.0, 25.0), [Item(3, Disc(65.0, 55.0, 10.0))]),
         Leaf(AABB(25.0, 75.0, 25.0), [Item(4, Disc(55.0, 65.0, 10.0))]), Leaf(AABB(75.0, 75.0, 25.0), []))
  }

  /** The first three bodies fill the root leaf. */
  lemma MissedPairRoot()
    ensures var i0, i1, i2 := Item(0, Disc(15.0, 15.0, 10.0)), Item(1, Disc(85.0, 15.0, 10.0)),
                              Item(2, Disc(15.0, 85.0, 10.0));
      Build(AABB(50.0, 50.0, 50.0), [i0, i1, i2]) == Leaf(AABB(50.0, 50.0, 50.0), [i0, i1, i2])
  {
    var world := AABB(50.0, 50.0, 50.0);
    var i0, i1, i2 := Item(0, Disc(15.0, 15.0, 10.0)), Item(1, Disc(85.0, 15.0, 10.0)), Item(2, Disc(15.0, 85.0, 10.0));
    assert [i0][..0] == [];
    assert Build(world, [i0]) == Leaf(world, [i0]);
    assert [i0, i1][..1] == [i0];
    assert Build(world, [i0, i1]) == Leaf(world, [i0, i1]);
    assert [i0, i1, i2][..2] == [i0, i1];
  }

  /** A then subdivides the root and goes to NE; B goes to SW. */
  lemma MissedPairSplit()
    ensures var t := MissedPairTree();
      var t4 := t.(sw := Leaf(t.sw.box, []));
      Insert(Leaf(t.box, t.items), t.ne.items[0]).0 == t4 &&
      Insert(t4, t.sw.items[0]).0 == t
  {
  }

  lemma MissedPairBuild()
    ensures Build(AABB(50.0, 50.0, 50.0), ItemsOf(MissedPairShapes())) == MissedPairTree()
  {
    var t := MissedPairTree();
    var items := ItemsOf(MissedPairShapes());
    MissedPairRoot();
    MissedPairSplit();
    assert items[..3] == t.items;
    assert items[..4][..3] == items[..3];
    assert items[3] == t.ne.items[0] && items[4] == t.sw.items[0];
  }

  /** In that tree every body's probe square (half side 11 around its
      centre) finds only the body itself. */
  lemma MissedPairQueries()
    ensures var t := MissedPairTree();
      Query(t, AABB(15.0, 15.0, 11.0)) == [t.items[0]] &&
      Query(t, AABB(85.0, 15.0, 11.0)) == [t.items[1]] &&
      Query(t, AABB(15.0, 85.0, 11.0)) == [t.items[2]] &&
      Query(t, AABB(65.0, 55.0, 11.0)) == t.ne.items &&
      Query(t, AABB(55.0, 65.0, 11.0)) == t.sw.items
  {
  }

  /** Scans that each find only the scanning body flag nothing and count
      nothing. */
  lemma {:induction false} DetectSelfOnly(shapes: seq<Disc>, cands: seq<seq<Item>>, n: nat)
    requires |cands| == |shapes| && n <= |shapes|
    requires forall k :: 0 <= k < n ==> cands[k] == [Item(k, shapes[k])]
    ensures Detect(shapes, cands, n) == Tally({}, 0)
  {
    if n > 0 {
      DetectSelfOnly(shapes, cands, n - 1);
      var own := cands[n - 1];
      assert own[0].id == n - 1 && own[1..] == [];
      assert Scan(n - 1, shapes[n - 1], own, {}) == Scan(n - 1, shapes[n - 1], [], {});
    }
  }

  /** The pass as written misses a deeply overlapping pair: A and B meet
      (their centres are about 14.1 apart, their radii sum to 20), yet B's
      probe square strictly misses the NE square that holds A and A's probe
      misses the SW square that holds B, so every body finds only itself and
      nothing is flagged. */
  lemma MissedPair()
    ensures var shapes := MissedPairShapes();
      Collides(shapes, 3) && Collides(shapes, 4) &&
      Pass(shapes, AABB(50.0, 50.0, 50.0)) == Tally({}, 0)
  {
    var s := MissedPairShapes();
    MissedPairBuild();
    var cands := Candidates(MissedPairTree(), s);
    MissedPairQueries();
    assert cands[0] == [Item(0, s[0])] && cands[1] == [Item(1, s[1])] && cands[2] == [Item(2, s[2])];
    assert cands[3] == [Item(3, s[3])] && cands[4] == [Item(4, s[4])];
    forall k | 0 <= k < 5 ensures cands[k] == [Item(k, s[k])] {
      assert k == 0 || k == 1 || k == 2 || k == 3 || k == 4;
    }
    DetectSelfOnly(s, cands, 5);
    assert Intersects(s[3], s[4]) && Intersects(s[4], s[3]);
  }

  // ---------------------------------------------------------------------
  // The pass with the corrected query
  // ---------------------------------------------------------------------

  /** The candidates of every body under the corrected query. */
  function LooseCandidates(tree: Tree, shapes: seq<Disc>, margin: real): (cands: seq<seq<Item>>)
    ensures |cands| == |shapes|
    ensures forall k :: 0 <= k < |shapes| ==> cands[k] == QueryLoose(tree, Probe(shapes[k]), margin)
  {
    seq(|shapes|, k requires 0 <= k < |shapes| => QueryLoose(tree, Probe(shapes[k]), margin))
  }

  /** The collision pass with the corrected query: the same tree and the
      same scans, with subtrees pruned against their squares widened by
      `margin`. */
  function PassLoose(shapes: seq<Disc>, world: AABB, margin: real): Tally
  {
    Detect(shapes, LooseCandidates(Build(world, ItemsOf(shapes)), shapes, margin), |shapes|)
  }

  /** A body's probe square overlaps the box of every body it meets. */
  lemma ProbeMeets(a: Disc, b: Disc)
    requires Intersects(a, b)
    ensures ContainsCircle(Probe(a), b)
  {
    IntersectsAxes(a, b);
  }

  /** Every candidate of the corrected pass is one of the bodies, with its
      shape. */
  lemma LooseCandidatesAreBodies(shapes: seq<Disc>, world: AABB, margin: real)
    ensures forall k :: 0 <= k < |shapes| ==>
      forall f <- LooseCandidates(Build(world, ItemsOf(shapes)), shapes, margin)[k] ::
        f.id < |shapes| && f.disc == shapes[f.id]
  {
    var tree := Build(world, ItemsOf(shapes));
    var cands := LooseCandidates(tree, shapes, margin);
    forall k: int, f: Item | 0 <= k < |shapes| && f in cands[k] ensures f.id < |shapes| && f.disc == shapes[f.id] {
      QueryLooseSound(tree, Probe(shapes[k]), margin);
      assert f in multiset(Elements(tree));
      BuiltItemIsBody(shapes, world, f);
    }
  }

  /** The tree built from bodies of non-negative radius inside the root
      square is well formed and holds every body. */
  lemma BuiltHoldsBodies(shapes: seq<Disc>, world: AABB, y: nat)
    requires world.halfLength > 0.0
    requires forall k :: 0 <= k < |shapes| ==> shapes[k].r >= 0.0 && ContainsCircle(world, shapes[k])
    requires y < |shapes|
    ensures WellFormed(Build(world, ItemsOf(shapes)))
    ensures Item(y, shapes[y]) in Elements(Build(world, ItemsOf(shapes)))
  {
    var items := ItemsOf(shapes);
    var tree := Build(world, items);
    BuildHoldsAll(world, items);
    BagElements(tree);
    assert items[y] in multiset(Elements(tree));
  }

  /** Every item of the built tree has a diameter below the margin when
      every body does. */
  lemma BuiltDiametersBelow(shapes: seq<Disc>, world: AABB, margin: real)
    requires forall k :: 0 <= k < |shapes| ==> 2.0 * shapes[k].r < margin
    ensures forall z <- Elements(Build(world, ItemsOf(shapes))) :: 2.0 * z.disc.r < margin
  {
    forall z <- Elements(Build(world, ItemsOf(shapes))) ensures 2.0 * z.disc.r < margin {
      BuiltItemIsBody(shapes, world, z);
    }
  }

  /** With the corrected query, a body's candidates include every body it
      meets. */
  lemma LooseFindsNeighbour(shapes: seq<Disc>, world: AABB, margin: real, x: nat, y: nat)
    requires world.halfLength > 0.0
    requires forall k :: 0 <= k < |shapes| ==>
      shapes[k].r >= 0.0 && 2.0 * shapes[k].r < margin && ContainsCircle(world, shapes[k])
    requires x < |shapes| && y < |shapes| && Intersects(shapes[x], shapes[y])
    ensures Item(y, shapes[y]) in QueryLoose(Build(world, ItemsOf(shapes)), Probe(shapes[x]), margin)
  {
    BuiltHoldsBodies(shapes, world, y);
    BuiltDiametersBelow(shapes, world, margin);
    ProbeMeets(shapes[x], shapes[y]);
    QueryLooseComplete(Build(world, ItemsOf(shapes)), Probe(shapes[x]), margin, Item(y, shapes[y]));
  }

  /** With the corrected query and a margin above every diameter, the pass
      flags a body exactly when it meets another body, for bodies of
      non-negative radius inside the root square. */
  lemma PassLooseExact(shapes: seq<Disc>, world: AABB, margin: real, x: nat)
    requires world.halfLength > 0.0
    requires forall k :: 0 <= k < |shapes| ==>
      shapes[k].r >= 0.0 && 2.0 * shapes[k].r < margin && ContainsCircle(world, shapes[k])
    ensures x in PassLoose(shapes, world, margin).flagged <==> Collides(shapes, x)
  {
    var cands := LooseCandidates(Build(world, ItemsOf(shapes)), shapes, margin);
    if Collides(shapes, x) {
      var y :| 0 <= y < |shapes| && y != x && Intersects(shapes[x], shapes[y]);
      LooseFindsNeighbour(shapes, world, margin, x, y);
      assert Item(y, shapes[y]) in cands[x];
      DetectFlags(shapes, cands, |shapes|, x);
    } else {
      LooseCandidatesAreBodies(shapes, world, margin);
      assert forall k :: 0 <= k < |shapes| ==> forall f: Item <- cands[k] :: f.id < |shapes| && f.disc == shapes[f.id];
      DetectSound(shapes, cands, |shapes|);
    }
  }

  /** The corrected pass flags both bodies of the pair the pass as written
      misses. */
  lemma MissedPairFound()
    ensures var shapes := MissedPairShapes();
      3 in PassLoose(shapes, AABB(50.0, 50.0, 50.0), 21.0).flagged &&
      4 in PassLoose(shapes, AABB(50.0, 50.0, 50.0), 21.0).flagged
  {
    var s, world := MissedPairShapes(), AABB(50.0, 50.0, 50.0);
    MissedPair();
    assert ContainsCircle(world, s[0]) && ContainsCircle(world, s[1]) && ContainsCircle(world, s[2]);
    assert ContainsCircle(world, s[3]) && ContainsCircle(world, s[4]);
    forall k | 0 <= k < |s| ensures s[k].r >= 0.0 && 2.0 * s[k].r < 21.0 && ContainsCircle(world, s[k]) {
      assert k == 0 || k == 1 || k == 2 || k == 3 || k == 4;
    }
    PassLooseExact(s, AABB(50.0, 50.0, 50.0), 21.0, 3);
    PassLooseExact(s, AABB(50.0, 50.0, 50.0), 21.0, 4);
  }
}
