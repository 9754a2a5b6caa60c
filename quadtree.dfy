/** The region quadtree of quadtree.js:51-151 as a value: a node is a leaf
    or has exactly four children, and insertion returns the updated tree
    instead of updating nodes in place. A tree holds items: the index of a
    body in the simulation's body list together with the body's shape, so
    that comparing items by `id` is comparing the source's object
    references. */
module QuadTree {
  import opened Geometry

  /** Direct holdings a node accepts before it subdivides (quadtree.js:311). */
  const CAPACITY: nat := 3

  datatype Item = Item(id: nat, disc: Disc)

  /** The fixed order in which children are tried and visited. */
  datatype Quadrant = NW | NE | SW | SE

  /** A node of the quadtree: a leaf, or a node with exactly four children.
      `items` are the node's own (direct) holdings. */
  datatype Tree =
    | Leaf(box: AABB, items: seq<Item>)
    | Node(box: AABB, items: seq<Item>, nw: Tree, ne: Tree, sw: Tree, se: Tree)

  /** Outcome of an insertion: the circle lies outside the node, it was stored
      somewhere below, or no child accepted it although the node did (the
      branch that the source reports on the console and answers `false`). */
  datatype Status = Rejected | Stored | Lost

  function Child(t: Tree, q: Quadrant): Tree
    requires t.Node?
  {
    match q
    case NW => t.nw
    case NE => t.ne
    case SW => t.sw
    case SE => t.se
  }

  /** The square of child `q` of a node with square `b`: half the half-length,
      centre moved by that amount on both axes (quadtree.js:90-121). */
  function QuadrantBox(b: AABB, q: Quadrant): AABB
  {
    var h := b.halfLength / 2.0;
    match q
    case NW => AABB(b.x - h, b.y - h, h)
    case NE => AABB(b.x + h, b.y - h, h)
    case SW => AABB(b.x - h, b.y + h, h)
    case SE => AABB(b.x + h, b.y + h, h)
  }

  /** A leaf with square `box` and holdings `items` turned into a node: the
      holdings stay where they are and four empty leaves are created. */
  function Subdivide(box: AABB, items: seq<Item>): (t: Tree)
    ensures t.Node? && t.box == box && t.items == items
    ensures forall q :: Child(t, q) == Leaf(QuadrantBox(box, q), [])
  {
    Node(box, items,
         Leaf(QuadrantBox(box, NW), []), Leaf(QuadrantBox(box, NE), []),
         Leaf(QuadrantBox(box, SW), []), Leaf(QuadrantBox(box, SE), []))
  }

  function Max(a: nat, b: nat): nat { if a < b then b else a }

  function Height(t: Tree): nat
  {
    match t
    case Leaf(_, _) => 0
    case Node(_, _, nw, ne, sw, se) =>
      1 + Max(Max(Height(nw), Height(ne)), Max(Height(sw), Height(se)))
  }

  /** Every item held anywhere in the tree: the node's own holdings, then the
      children's in NW, NE, SW, SE order. */
  function Elements(t: Tree): seq<Item>
  {
    match t
    case Leaf(_, items) => items
    case Node(_, items, nw, ne, sw, se) =>
      items + Elements(nw) + Elements(ne) + Elements(sw) + Elements(se)
  }

  /** The items of the tree counted with multiplicity. */
  function Bag(t: Tree): multiset<Item>
  {
    match t
    case Leaf(_, items) => multiset(items)
    case Node(_, items, nw, ne, sw, se) =>
      multiset(items) + Bag(nw) + Bag(ne) + Bag(sw) + Bag(se)
  }

  /** The shape invariant of every tree the source builds: positive squares,
      at most CAPACITY direct holdings, each of which overlaps the node's
      square, and an internal node that is full and whose children are its
      four quadrants. */
  predicate WellFormed(t: Tree)
  {
    t.box.halfLength > 0.0 &&
    |t.items| <= CAPACITY &&
    (forall it <- t.items :: ContainsCircle(t.box, it.disc)) &&
    (t.Node? ==>
      |t.items| == CAPACITY &&
      t.nw.box == QuadrantBox(t.box, NW) && t.ne.box == QuadrantBox(t.box, NE) &&
      t.sw.box == QuadrantBox(t.box, SW) && t.se.box == QuadrantBox(t.box, SE) &&
      WellFormed(t.nw) && WellFormed(t.ne) && WellFormed(t.sw) && WellFormed(t.se))
  }

  /** A leaf that still has room takes the item itself. */
  predicate HasRoom(t: Tree)
  {
    t.Leaf? && |t.items| < CAPACITY
  }

  /** quadtree.js:63-88. Outside the node's square the item is rejected and
      nothing changes. A leaf with room appends it. Otherwise the node is
      subdivided if it is still a leaf, and the children are tried in NW, NE,
      SW, SE order; the first one that stores the item ends the search. A
      child that answered `false` keeps whatever it changed on the way. */
  function Insert(t: Tree, it: Item): (r: (Tree, Status))
    ensures r.0.box == t.box
    ensures r.1 == Rejected <==> !ContainsCircle(t.box, it.disc)
    ensures r.1 == Rejected ==> r.0 == t
    ensures r.0.items == if HasRoom(t) && r.1 == Stored then t.items + [it] else t.items
    ensures r.0.Leaf? <==> HasRoom(t) || (r.1 == Rejected && t.Leaf?)
    decreases Height(t), if HasRoom(t) then 0 else 1
  {
    if !ContainsCircle(t.box, it.disc) then (t, Rejected)
    else if HasRoom(t) then (Leaf(t.box, t.items + [it]), Stored)
    else
      var n := if t.Leaf? then Subdivide(t.box, t.items) else t;
      var (nw, s1) := Insert(n.nw, it);
      if s1 == Stored then (n.(nw := nw), Stored) else
      var (ne, s2) := Insert(n.ne, it);
      if s2 == Stored then (n.(nw := nw, ne := ne), Stored) else
      var (sw, s3) := Insert(n.sw, it);
      if s3 == Stored then (n.(nw := nw, ne := ne, sw := sw), Stored) else
      var (se, s4) := Insert(n.se, it);
      if s4 == Stored then (n.(nw := nw, ne := ne, sw := sw, se := se), Stored) else
      (n.(nw := nw, ne := ne, sw := sw, se := se), Lost)
  }

  /** The holdings of `items` that overlap `range`, in their order
      (quadtree.js:133-137). See FilterSound and FilterKeeps. */
  function Filter(items: seq<Item>, range: AABB): seq<Item>
  {
    if items == [] then []
    else
      var rest := Filter(items[1..], range);
      if ContainsCircle(range, items[0].disc) then [items[0]] + rest else rest
  }

  /** quadtree.js:125-151. A subtree whose square does not strictly overlap
      the range contributes nothing; otherwise the node's own overlapping
      holdings come first, then the NW, NE, SW and SE results. See
      QuerySound and QueryCovering. */
  function Query(t: Tree, range: AABB): seq<Item>
  {
    if !IntersectsAABB(t.box, range) then []
    else
      match t
      case Leaf(_, items) => Filter(items, range)
      case Node(_, items, nw, ne, sw, se) =>
        Filter(items, range) + Query(nw, range) + Query(ne, range) + Query(sw, range) + Query(se, range)
  }

  /** The loop of quadtree.js:133-137: the node's own holdings that
      overlap the range, in their order. */
  method CollectOwn(items: seq<Item>, rangeAABB: AABB) returns (found: seq<Item>)
    ensures found == Filter(items, rangeAABB)
  {
    found := [];
    var i := 0;
    while i < |items|
      invariant 0 <= i <= |items|
      invariant found == Filter(items[..i], rangeAABB)
    {
      FilterPrefixStep(items, i, rangeAABB);
      if ContainsCircle(rangeAABB, items[i].disc) {
        found := found + [items[i]];
      }
      i := i + 1;
    }
    assert items[..i] == items;
  }

  /** quadtree.js:125-151 as the source runs it: nothing when the node's
      square misses the range, else the node's own overlapping circles
      followed by the children's results in NW, NE, SW, SE order. */
  method QueryRange(t: Tree, rangeAABB: AABB) returns (foundCircles: seq<Item>)
    ensures foundCircles == Query(t, rangeAABB)
  {
    foundCircles := [];
    if !IntersectsAABB(t.box, rangeAABB) {
      return;
    }
    foundCircles := CollectOwn(t.items, rangeAABB);
    if t.Leaf? {
      return;
    }
    var nw := QueryRange(t.nw, rangeAABB);
    var ne := QueryRange(t.ne, rangeAABB);
    var sw := QueryRange(t.sw, rangeAABB);
    var se := QueryRange(t.se, rangeAABB);
    foundCircles := foundCircles + nw + ne + sw + se;
  }

  /** The tree the collision pass builds: an empty root over `box`, then one
      insertion per item in order (quadtree.js:241-246). */
  function Build(box: AABB, items: seq<Item>): Tree
    decreases |items|
  {
    if items == [] then Leaf(box, [])
    else Insert(Build(box, items[..|items| - 1]), items[|items| - 1]).0
  }

  /** The first quadrant, in NW, NE, SW, SE order, whose square the disc
      overlaps (SE when none of the first three does). */
  function FirstQuadrant(b: AABB, c: Disc): Quadrant
  {
    if ContainsCircle(QuadrantBox(b, NW), c) then NW
    else if ContainsCircle(QuadrantBox(b, NE), c) then NE
    else if ContainsCircle(QuadrantBox(b, SW), c) then SW
    else SE
  }

  // ---------------------------------------------------------------------
  // Geometry of subdivision
  // ---------------------------------------------------------------------

  /** Each quadrant is a positive square inside its parent. */
  lemma QuadrantWithin(b: AABB, q: Quadrant)
    requires b.halfLength > 0.0
    ensures QuadrantBox(b, q).halfLength > 0.0 && Within(QuadrantBox(b, q), b)
  {
  }

  /** The closed quadrants cover the parent: a disc of non-negative radius
      that overlaps the parent overlaps the first quadrant in the fixed order
      that it can. With a negative radius the disc's box is inverted and this
      fails, which is when the source's error branch is reachable. */
  lemma QuadrantsCover(b: AABB, c: Disc)
    requires c.r >= 0.0 && ContainsCircle(b, c)
    ensures ContainsCircle(QuadrantBox(b, FirstQuadrant(b, c)), c)
  {
    var h := b.halfLength / 2.0;
    assert c.x - c.r <= b.x || c.x + c.r >= b.x;
    assert c.y - c.r <= b.y || c.y + c.r >= b.y;
  }

  /** The cover needs the radius: a disc with a negative radius may overlap
      a square without overlapping any of its quadrants. */
  lemma NegativeRadiusEscapesQuadrants()
    ensures var b, c := AABB(0.0, 0.0, 4.0), Disc(0.0, 0.0, -1.0);
      ContainsCircle(b, c) &&
      forall q :: !ContainsCircle(QuadrantBox(b, q), c)
  {
    var b, c := AABB(0.0, 0.0, 4.0), Disc(0.0, 0.0, -1.0);
    forall q ensures !ContainsCircle(QuadrantBox(b, q), c) {
    }
  }

  // ---------------------------------------------------------------------
  // Insertion
  // ---------------------------------------------------------------------

  /** A fresh empty leaf over a positive square is well formed. */
  lemma EmptyLeafWellFormed(b: AABB)
    requires b.halfLength > 0.0
    ensures WellFormed(Leaf(b, []))
  {
  }

  lemma SubdivideWellFormed(box: AABB, items: seq<Item>)
    requires WellFormed(Leaf(box, items)) && |items| == CAPACITY
    ensures WellFormed(Subdivide(box, items))
  {
    forall q ensures WellFormed(Child(Subdivide(box, items), q)) {
      QuadrantWithin(box, q);
    }
  }

  /** How a node that cannot keep the circle itself assembles its answer
      from the answers of its four children (given in NW, NE, SW, SE order):
      the first child that stored the circle ends the search, the children
      after it are left untouched. */
  function Settle(n: Tree, r1: (Tree, Status), r2: (Tree, Status),
                  r3: (Tree, Status), r4: (Tree, Status)): (Tree, Status)
    requires n.Node?
  {
    if r1.1 == Stored then (n.(nw := r1.0), Stored)
    else if r2.1 == Stored then (n.(nw := r1.0, ne := r2.0), Stored)
    else if r3.1 == Stored then (n.(nw := r1.0, ne := r2.0, sw := r3.0), Stored)
    else if r4.1 == Stored then (n.(nw := r1.0, ne := r2.0, sw := r3.0, se := r4.0), Stored)
    else (n.(nw := r1.0, ne := r2.0, sw := r3.0, se := r4.0), Lost)
  }

  /** The node that the children are tried on: the node itself, or the leaf
      after subdivision. */
  function Divided(t: Tree): (n: Tree)
    ensures n.Node? && n.box == t.box && n.items == t.items && Elements(n) == Elements(t)
  {
    if t.Leaf? then Subdivide(t.box, t.items) else t
  }

  /** Insertion past a full node is the four child insertions combined. */
  lemma InsertBySettle(t: Tree, it: Item)
    requires ContainsCircle(t.box, it.disc) && !HasRoom(t)
    ensures var n := Divided(t);
      Insert(t, it) == Settle(n, Insert(n.nw, it), Insert(n.ne, it), Insert(n.sw, it), Insert(n.se, it))
  {
  }

  /** Insertion keeps the shape invariant: capacity bound, holdings inside
      their node, internal nodes full with quadrant children. */
  lemma {:induction false} InsertWellFormed(t: Tree, it: Item)
    requires WellFormed(t)
    ensures WellFormed(Insert(t, it).0)
    decreases Height(t), if HasRoom(t) then 0 else 1
  {
    if !ContainsCircle(t.box, it.disc) || HasRoom(t) {
    } else {
      var n := Divided(t);
      if t.Leaf? { SubdivideWellFormed(t.box, t.items); }
      InsertBySettle(t, it);
      InsertWellFormed(n.nw, it);
      InsertWellFormed(n.ne, it);
      InsertWellFormed(n.sw, it);
      InsertWellFormed(n.se, it);
      SettleWellFormed(n, Insert(n.nw, it), Insert(n.ne, it), Insert(n.sw, it), Insert(n.se, it));
    }
  }

  lemma SettleWellFormed(n: Tree, r1: (Tree, Status), r2: (Tree, Status),
                         r3: (Tree, Status), r4: (Tree, Status))
    requires n.Node? && WellFormed(n)
    requires r1.0.box == n.nw.box && r2.0.box == n.ne.box && r3.0.box == n.sw.box && r4.0.box == n.se.box
    requires WellFormed(r1.0) && WellFormed(r2.0) && WellFormed(r3.0) && WellFormed(r4.0)
    ensures WellFormed(Settle(n, r1, r2, r3, r4).0)
  {
    var a := r1.0;
    var b := if r1.1 == Stored then n.ne else r2.0;
    var c := if r1.1 == Stored || r2.1 == Stored then n.sw else r3.0;
    var d := if r1.1 == Stored || r2.1 == Stored || r3.1 == Stored then n.se else r4.0;
    assert Settle(n, r1, r2, r3, r4).0 == n.(nw := a, ne := b, sw := c, se := d);
    ReplaceChildrenWellFormed(n, a, b, c, d);
  }

  /** Replacing the children of a well-formed node by well-formed trees over
      the same squares keeps it well-formed. */
  lemma ReplaceChildrenWellFormed(n: Tree, a: Tree, b: Tree, c: Tree, d: Tree)
    requires n.Node? && WellFormed(n)
    requires a.box == n.nw.box && b.box == n.ne.box && c.box == n.sw.box && d.box == n.se.box
    requires WellFormed(a) && WellFormed(b) && WellFormed(c) && WellFormed(d)
    ensures WellFormed(n.(nw := a, ne := b, sw := c, se := d))
  {
  }

  /** For a well-formed tree and a non-negative radius, an insertion succeeds
      exactly when the root accepts the circle: the error branch of
      quadtree.js:86 is never taken. */
  lemma {:induction false} InsertNeverLost(t: Tree, it: Item)
    requires WellFormed(t) && it.disc.r >= 0.0
    ensures Insert(t, it).1 == Stored <==> ContainsCircle(t.box, it.disc)
    ensures Insert(t, it).1 != Lost
    decreases Height(t), if HasRoom(t) then 0 else 1
  {
    if !ContainsCircle(t.box, it.disc) || HasRoom(t) {
    } else {
      var n := Divided(t);
      if t.Leaf? { SubdivideWellFormed(t.box, t.items); }
      InsertBySettle(t, it);
      QuadrantsCover(t.box, it.disc);
      InsertNeverLost(n.nw, it);
      InsertNeverLost(n.ne, it);
      InsertNeverLost(n.sw, it);
      InsertNeverLost(n.se, it);
    }
  }

  /** Tie-break: when the node cannot keep the circle itself, the circle goes
      to the first quadrant in NW, NE, SW, SE order that overlaps it; the
      other three children are left as they were. */
  lemma InsertIntoFirstQuadrant(t: Tree, it: Item)
    requires WellFormed(t) && it.disc.r >= 0.0
    requires ContainsCircle(t.box, it.disc) && !HasRoom(t)
    ensures var n := Divided(t);
      var r := Insert(t, it).0;
      var q := FirstQuadrant(t.box, it.disc);
      r.Node? && r.items == t.items &&
      forall p :: Child(r, p) == if p == q then Insert(Child(n, p), it).0 else Child(n, p)
  {
    var n := Divided(t);
    if t.Leaf? { SubdivideWellFormed(t.box, t.items); }
    InsertBySettle(t, it);
    QuadrantsCover(t.box, it.disc);
    InsertNeverLost(n.nw, it);
    InsertNeverLost(n.ne, it);
    InsertNeverLost(n.sw, it);
    InsertNeverLost(n.se, it);
  }

  /** Insertion adds the item once, and only when it is stored: nothing is
      lost, duplicated or moved out of the tree. */
  lemma {:induction false} InsertElements(t: Tree, it: Item)
    ensures Bag(Insert(t, it).0) == Bag(t) + Added(it, Insert(t, it).1)
    decreases Height(t), if HasRoom(t) then 0 else 1
  {
    if !ContainsCircle(t.box, it.disc) || HasRoom(t) {
    } else {
      var n := Divided(t);
      InsertBySettle(t, it);
      InsertElements(n.nw, it);
      InsertElements(n.ne, it);
      InsertElements(n.sw, it);
      InsertElements(n.se, it);
      SettleElements(n, it, Insert(n.nw, it), Insert(n.ne, it), Insert(n.sw, it), Insert(n.se, it));
    }
  }

  /** The multiset of items a settled node holds after the settlement,
      given what each child's insertion did to its own items. */
  function Added(it: Item, s: Status): multiset<Item>
  {
    if s == Stored then multiset{it} else multiset{}
  }

  lemma SettleElements(n: Tree, it: Item, r1: (Tree, Status), r2: (Tree, Status),
                       r3: (Tree, Status), r4: (Tree, Status))
    requires n.Node?
    requires Bag(r1.0) == Bag(n.nw) + Added(it, r1.1)
    requires Bag(r2.0) == Bag(n.ne) + Added(it, r2.1)
    requires Bag(r3.0) == Bag(n.sw) + Added(it, r3.1)
    requires Bag(r4.0) == Bag(n.se) + Added(it, r4.1)
    ensures var r := Settle(n, r1, r2, r3, r4);
      Bag(r.0) == Bag(n) + Added(it, r.1)
  {
  }

  /** The bag of a tree is the multiset of its elements. */
  lemma {:induction false} BagElements(t: Tree)
    ensures Bag(t) == multiset(Elements(t))
  {
    if t.Node? {
      BagElements(t.nw);
      BagElements(t.ne);
      BagElements(t.sw);
      BagElements(t.se);
    }
  }

  // ---------------------------------------------------------------------
  // Range query
  // ---------------------------------------------------------------------

  /** A range that covers the whole square of a well-formed tree returns
      every item of the tree, in the tree's order. */
  lemma {:induction false} QueryCovering(t: Tree, range: AABB)
    requires WellFormed(t) && Within(t.box, range)
    ensures Query(t, range) == Elements(t)
  {
    WithinIntersects(t.box, range);
    OwnItemsCovered(t, range);
    if t.Node? {
      ChildrenWithin(t, range);
      QueryCovering(t.nw, range);
      QueryCovering(t.ne, range);
      QueryCovering(t.sw, range);
      QueryCovering(t.se, range);
      assert Query(t, range) == t.items + Elements(t.nw) + Elements(t.ne)
        + Elements(t.sw) + Elements(t.se);
    }
  }

  lemma ChildrenWithin(t: Tree, range: AABB)
    requires WellFormed(t) && t.Node? && Within(t.box, range)
    ensures Within(t.nw.box, range) && Within(t.ne.box, range)
    ensures Within(t.sw.box, range) && Within(t.se.box, range)
  {
    QuadrantWithin(t.box, NW);
    QuadrantWithin(t.box, NE);
    QuadrantWithin(t.box, SW);
    QuadrantWithin(t.box, SE);
  }

  lemma OwnItemsCovered(t: Tree, range: AABB)
    requires WellFormed(t) && Within(t.box, range)
    ensures Filter(t.items, range) == t.items
  {
    forall x <- t.items ensures ContainsCircle(range, x.disc) {
      ContainsCircleWithin(t.box, range, x.disc);
    }
    FilterAll(t.items, range);
  }

  lemma {:induction false} FilterAll(items: seq<Item>, range: AABB)
    requires forall x <- items :: ContainsCircle(range, x.disc)
    ensures Filter(items, range) == items
  {
    if items != [] {
      FilterAll(items[1..], range);
      assert items == [items[0]] + items[1..];
    }
  }

  /** Every holding kept overlaps the range, and the kept holdings are
      some of the input holdings. */
  lemma {:induction false} FilterSound(items: seq<Item>, range: AABB)
    ensures forall x <- Filter(items, range) :: ContainsCircle(range, x.disc)
    ensures multiset(Filter(items, range)) <= multiset(items)
  {
    if items != [] {
      FilterSound(items[1..], range);
      assert items == [items[0]] + items[1..];
    }
  }

  /** Every item found overlaps the range, and the items found are some of
      the items held in the tree. */
  lemma {:induction false} QuerySound(t: Tree, range: AABB)
    ensures forall x <- Query(t, range) :: ContainsCircle(range, x.disc)
    ensures multiset(Query(t, range)) <= multiset(Elements(t))
  {
    FilterSound(t.items, range);
    if t.Node? {
      QuerySound(t.nw, range);
      QuerySound(t.ne, range);
      QuerySound(t.sw, range);
      QuerySound(t.se, range);
    }
  }

  /** Filtering keeps every holding that overlaps the range. */
  lemma {:induction false} FilterKeeps(items: seq<Item>, range: AABB, x: Item)
    requires x in items && ContainsCircle(range, x.disc)
    ensures x in Filter(items, range)
  {
    if items[0] != x {
      FilterKeeps(items[1..], range, x);
    }
  }

  /** Filtering a prefix one item longer extends the result by that item
      when it overlaps the range. */
  lemma FilterPrefixStep(items: seq<Item>, i: nat, range: AABB)
    requires i < |items|
    ensures Filter(items[..i + 1], range) ==
      Filter(items[..i], range) + if ContainsCircle(range, items[i].disc) then [items[i]] else []
  {
    assert items[..i + 1] == items[..i] + [items[i]];
    FilterSnoc(items[..i], items[i], range);
  }

  /** Filtering one more item at the end extends the result by that item
      exactly when it overlaps the range. */
  lemma {:induction false} FilterSnoc(items: seq<Item>, x: Item, range: AABB)
    ensures Filter(items + [x], range) ==
      Filter(items, range) + if ContainsCircle(range, x.disc) then [x] else []
  {
    if items == [] {
      assert [x][1..] == [];
    } else {
      assert (items + [x])[1..] == items[1..] + [x];
      FilterSnoc(items[1..], x, range);
    }
  }

  /** Every item that is found is held somewhere in the tree. */
  lemma QueryFromTree(t: Tree, range: AABB, x: Item)
    requires x in Query(t, range)
    ensures x in Elements(t)
  {
    QuerySound(t, range);
    assert x in multiset(Query(t, range));
  }

  // ---------------------------------------------------------------------
  // Pruning the placement calls for
  // ---------------------------------------------------------------------

  /** Every item held in a well-formed tree overlaps the tree's square. */
  lemma {:induction false} ElementsOverlapBox(t: Tree, x: Item)
    requires WellFormed(t) && x in Elements(t)
    ensures ContainsCircle(t.box, x.disc)
  {
    if x !in t.items {
      var q := if x in Elements(t.nw) then NW else if x in Elements(t.ne) then NE
               else if x in Elements(t.sw) then SW else SE;
      ElementsOverlapBox(Child(t, q), x);
      QuadrantWithin(t.box, q);
      ContainsCircleWithin(Child(t, q).box, t.box, x.disc);
    }
  }

  /** The range query with the pruning that the placement calls for: a
      subtree is skipped only when its square widened by `margin` misses the
      range. A circle is placed in the first quadrant its box overlaps and
      may reach up to a diameter beyond that quadrant's square, so
      quadtree.js:129 can skip it; with a margin above every diameter
      held, nothing that overlaps the range is skipped
      (QueryLooseComplete). */
  function QueryLoose(t: Tree, range: AABB, margin: real): seq<Item>
  {
    if !IntersectsAABB(Widened(t.box, margin), range) then []
    else
      match t
      case Leaf(_, items) => Filter(items, range)
      case Node(_, items, nw, ne, sw, se) =>
        Filter(items, range) + QueryLoose(nw, range, margin) + QueryLoose(ne, range, margin)
          + QueryLoose(sw, range, margin) + QueryLoose(se, range, margin)
  }

  /** With no margin the corrected query is the query as written. */
  lemma {:induction false} QueryLooseNoMargin(t: Tree, range: AABB)
    ensures QueryLoose(t, range, 0.0) == Query(t, range)
  {
    assert Widened(t.box, 0.0) == t.box;
    if t.Node? {
      QueryLooseNoMargin(t.nw, range);
      QueryLooseNoMargin(t.ne, range);
      QueryLooseNoMargin(t.sw, range);
      QueryLooseNoMargin(t.se, range);
    }
  }

  /** Every item the corrected query finds overlaps the range and is held
      in the tree. */
  lemma {:induction false} QueryLooseSound(t: Tree, range: AABB, margin: real)
    ensures forall x <- QueryLoose(t, range, margin) :: ContainsCircle(range, x.disc)
    ensures multiset(QueryLoose(t, range, margin)) <= multiset(Elements(t))
  {
    FilterSound(t.items, range);
    if t.Node? {
      QueryLooseSound(t.nw, range, margin);
      QueryLooseSound(t.ne, range, margin);
      QueryLooseSound(t.sw, range, margin);
      QueryLooseSound(t.se, range, margin);
    }
  }

  /** Completeness of the corrected query: in a well-formed tree whose
      diameters are all below `margin`, every held item that overlaps the
      range is found. */
  lemma {:induction false} QueryLooseComplete(t: Tree, range: AABB, margin: real, x: Item)
    requires WellFormed(t) && x in Elements(t) && ContainsCircle(range, x.disc)
    requires forall y <- Elements(t) :: 2.0 * y.disc.r < margin
    ensures x in QueryLoose(t, range, margin)
  {
    ElementsOverlapBox(t, x);
    WidenedOverlap(t.box, range, x.disc, margin);
    if x in t.items {
      FilterKeeps(t.items, range, x);
    } else if x in Elements(t.nw) {
      QueryLooseComplete(t.nw, range, margin, x);
    } else if x in Elements(t.ne) {
      QueryLooseComplete(t.ne, range, margin, x);
    } else if x in Elements(t.sw) {
      QueryLooseComplete(t.sw, range, margin, x);
    } else {
      QueryLooseComplete(t.se, range, margin, x);
    }
  }

  // ---------------------------------------------------------------------
  // Building a tree from a list of items
  // ---------------------------------------------------------------------

  /** Building over a positive square from circles of non-negative radius
      that all overlap the square gives a well-formed tree holding every
      circle exactly once. */
  lemma {:induction false} BuildHoldsAll(box: AABB, items: seq<Item>)
    requires box.halfLength > 0.0
    requires forall x <- items :: x.disc.r >= 0.0 && ContainsCircle(box, x.disc)
    ensures WellFormed(Build(box, items)) && Build(box, items).box == box
    ensures Bag(Build(box, items)) == multiset(items)
    decreases |items|
  {
    if items != [] {
      var init, last := items[..|items| - 1], items[|items| - 1];
      assert items == init + [last];
      assert last in items;
      BuildHoldsAll(box, init);
      var t := Build(box, init);
      assert Build(box, items) == Insert(t, last).0;
      InsertWellFormed(t, last);
      InsertNeverLost(t, last);
      InsertElements(t, last);
      assert Bag(Build(box, items)) == multiset(init) + multiset{last};
    }
  }

  /** Completeness: querying the whole root square of a tree built from
      circles inside it returns each of them exactly once. */
  lemma BuildThenQueryAll(box: AABB, items: seq<Item>)
    requires box.halfLength > 0.0
    requires forall x <- items :: x.disc.r >= 0.0 && ContainsCircle(box, x.disc)
    ensures multiset(Query(Build(box, items), box)) == multiset(items)
  {
    BuildHoldsAll(box, items);
    QueryCovering(Build(box, items), box);
    BagElements(Build(box, items));
  }

  /** Every item in a built tree is one of the items it was built from. */
  lemma {:induction false} BuildElementsFrom(box: AABB, items: seq<Item>, x: Item)
    requires x in Elements(Build(box, items))
    ensures x in items
    decreases |items|
  {
    if items != [] {
      var init, last := items[..|items| - 1], items[|items| - 1];
      InsertElements(Build(box, init), last);
      BagElements(Build(box, items));
      BagElements(Build(box, init));
      assert x in Bag(Build(box, items));
      if x != last {
        assert x in Bag(Build(box, init));
        BuildElementsFrom(box, init, x);
      }
    }
  }

  /** A built tree holds at most as many items as it was built from (fewer
      when some lie outside the root square). */
  lemma {:induction false} BuildSize(box: AABB, items: seq<Item>)
    ensures |Elements(Build(box, items))| <= |items|
    decreases |items|
  {
    if items != [] {
      var init, last := items[..|items| - 1], items[|items| - 1];
      var t := Build(box, init);
      BuildSize(box, init);
      InsertElements(t, last);
      BagElements(t);
      BagElements(Build(box, items));
      assert |Added(last, Insert(t, last).1)| <= 1;
      assert |Bag(Build(box, items))| <= |Bag(t)| + 1;
    }
  }
}
