/** A value model of the QuadTree of quadtree.js:27-86. A node is a `Leaf`
    while `divided` is false and a `Split` once it is true; both keep the
    node's own `points` list, because the source keeps that field after the
    node divides. `Insert`, `RouteFrom` and `PushDown` follow the source's
    `insert` step by step. They are the specification that the class in
    module QuadTrees is proved against.

    The source has no depth guard. Here every node is given a number of
    `levels` it may still subdivide: the root's is chosen by the caller, each
    child gets one less, and a leaf with no levels left takes every point it
    contains, past its capacity. Without that bound, inserting the same point
    twice at capacity 1 never returns (see DuplicateUsesEveryLevel). */
module TreeModel {
  import opened Geometry

  datatype Tree =
    | Leaf(boundary: Rectangle, points: seq<Point>)
    | Split(boundary: Rectangle, points: seq<Point>, kids: Quad)

  /** The four children of a divided node. */
  datatype Quad = Quad(nw: Tree, ne: Tree, sw: Tree, se: Tree) {

    function Get(k: Quadrant): Tree {
      match k
      case NW => nw
      case NE => ne
      case SW => sw
      case SE => se
    }

    function Set(k: Quadrant, t: Tree): Quad {
      match k
      case NW => this.(nw := t)
      case NE => this.(ne := t)
      case SW => this.(sw := t)
      case SE => this.(se := t)
    }
  }

  /** What `insert` returns: the new subtree and the boolean result. */
  datatype Outcome = Outcome(tree: Tree, accepted: bool)

  /** What offering a point to the children returns. */
  datatype Routed = Routed(quad: Quad, accepted: bool)

  /** The fresh, empty children that `subdivide` creates (quadtree.js:37-54). */
  function Subdivide(r: Rectangle): Quad {
    Quad(Leaf(Quarter(r, NW), []), Leaf(Quarter(r, NE), []),
         Leaf(Quarter(r, SW), []), Leaf(Quarter(r, SE), []))
  }

  /** `insert` (quadtree.js:56-86) on a node with capacity `cap` that may
      still subdivide `lv` times. */
  function Insert(t: Tree, p: Point, cap: nat, lv: nat): Outcome
    decreases lv, 0
  {
    if !t.boundary.Contains(p) then
      Outcome(t, false)
    else if t.Leaf? && (|t.points| < cap || lv == 0) then
      Outcome(Leaf(t.boundary, t.points + [p]), true)
    else if lv == 0 then
      // a divided node with no levels left; Shaped rules it out
      Outcome(t, false)
    else
      var routed := RouteFrom(Offered(t, cap, lv - 1), p, cap, lv - 1, InsertionOrder);
      Outcome(Split(t.boundary, Kept(t), routed.quad), routed.accepted)
  }

  /** The children that `insert` offers the point to once it does not append
      it: a divided node's own, or, for a full leaf, fresh ones into which its
      points have been pushed down (quadtree.js:66-78). `lv` is the
      children's level. */
  function Offered(t: Tree, cap: nat, lv: nat): Quad
    decreases lv, 3
  {
    if t.Leaf? then PushDown(Subdivide(t.boundary), t.points, cap, lv) else t.kids
  }

  /** The node's own points after that step: a leaf that divides empties its
      list (quadtree.js:77), a divided node keeps it. */
  function Kept(t: Tree): seq<Point> {
    if t.Leaf? then [] else t.points
  }

  /** The short-circuiting chain `a.insert(p) || b.insert(p) || ...` over the
      children named by `ks` (quadtree.js:72-75 and 81-84). */
  function RouteFrom(q: Quad, p: Point, cap: nat, lv: nat, ks: seq<Quadrant>): Routed
    decreases lv, 1, |ks|
  {
    if ks == [] then
      Routed(q, false)
    else
      var o := Insert(q.Get(ks[0]), p, cap, lv);
      var q' := q.Set(ks[0], o.tree);
      if o.accepted then Routed(q', true) else RouteFrom(q', p, cap, lv, ks[1..])
  }

  /** The push-down loop (quadtree.js:71-76): every point, in order, is offered
      to the children and the result is ignored. */
  function PushDown(q: Quad, pts: seq<Point>, cap: nat, lv: nat): Quad
    decreases lv, 2, |pts|
  {
    if pts == [] then q
    else PushDown(RouteFrom(q, pts[0], cap, lv, InsertionOrder).quad, pts[1..], cap, lv)
  }

  /** RouteFrom over the insertion order, unrolled into the source's chain of
      four child inserts. */
  lemma RouteChain(q: Quad, p: Point, cap: nat, lv: nat)
    ensures RouteFrom(q, p, cap, lv, InsertionOrder) ==
      var a := Insert(q.Get(NE), p, cap, lv);
      var q1 := q.Set(NE, a.tree);
      if a.accepted then Routed(q1, true) else
      var b := Insert(q1.Get(NW), p, cap, lv);
      var q2 := q1.Set(NW, b.tree);
      if b.accepted then Routed(q2, true) else
      var c := Insert(q2.Get(SE), p, cap, lv);
      var q3 := q2.Set(SE, c.tree);
      if c.accepted then Routed(q3, true) else
      var d := Insert(q3.Get(SW), p, cap, lv);
      Routed(q3.Set(SW, d.tree), d.accepted)
  {
    var a := Insert(q.Get(NE), p, cap, lv);
    var q1 := q.Set(NE, a.tree);
    assert InsertionOrder[0] == NE && InsertionOrder[1..] == [NW, SE, SW];
    assert RouteFrom(q, p, cap, lv, InsertionOrder) ==
           if a.accepted then Routed(q1, true) else RouteFrom(q1, p, cap, lv, [NW, SE, SW]);
    var b := Insert(q1.Get(NW), p, cap, lv);
    var q2 := q1.Set(NW, b.tree);
    assert [NW, SE, SW][1..] == [SE, SW];
    assert RouteFrom(q1, p, cap, lv, [NW, SE, SW]) ==
           if b.accepted then Routed(q2, true) else RouteFrom(q2, p, cap, lv, [SE, SW]);
    var c := Insert(q2.Get(SE), p, cap, lv);
    var q3 := q2.Set(SE, c.tree);
    assert [SE, SW][1..] == [SW];
    assert RouteFrom(q2, p, cap, lv, [SE, SW]) ==
           if c.accepted then Routed(q3, true) else RouteFrom(q3, p, cap, lv, [SW]);
    assert [SW][1..] == [];
  }

  // ---------------------------------------------------------------------
  // Specification functions (not operations of the source)

  /** Every point stored anywhere in the subtree, with multiplicity. */
  ghost function Elements(t: Tree): multiset<Point>
    decreases t
  {
    match t
    case Leaf(_, pts) => multiset(pts)
    case Split(_, pts, q) => multiset(pts) + QuadElements(q)
  }

  ghost function QuadElements(q: Quad): multiset<Point>
    decreases q
  {
    Elements(q.nw) + Elements(q.ne) + Elements(q.sw) + Elements(q.se)
  }

  /** The structure every node keeps: each stored point lies inside its node's
      boundary, a divided node has levels left, and its children's boundaries
      are the quarters of its own. */
  ghost predicate Shaped(t: Tree, lv: nat)
    decreases t, 0
  {
    (forall p :: p in t.points ==> t.boundary.Contains(p)) &&
    (t.Split? ==> lv > 0 && QuadShaped(t.kids, t.boundary, lv - 1))
  }

  ghost predicate QuadShaped(q: Quad, r: Rectangle, lv: nat)
    decreases q, 1
  {
    q.nw.boundary == Quarter(r, NW) && Shaped(q.nw, lv) &&
    q.ne.boundary == Quarter(r, NE) && Shaped(q.ne, lv) &&
    q.sw.boundary == Quarter(r, SW) && Shaped(q.sw, lv) &&
    q.se.boundary == Quarter(r, SE) && Shaped(q.se, lv)
  }

  /** The capacity rule: an undivided node holds at most `cap` points unless
      it has no levels left, and a divided node holds none itself. */
  ghost predicate WithinCapacity(t: Tree, cap: nat, lv: nat)
    decreases t, 1
  {
    match t
    case Leaf(_, pts) => lv == 0 || |pts| <= cap
    case Split(_, pts, q) => pts == [] && lv > 0 && QuadWithinCapacity(q, cap, lv - 1)
  }

  ghost predicate QuadWithinCapacity(q: Quad, cap: nat, lv: nat)
    decreases q, 0
  {
    WithinCapacity(q.nw, cap, lv) && WithinCapacity(q.ne, cap, lv) &&
    WithinCapacity(q.sw, cap, lv) && WithinCapacity(q.se, cap, lv)
  }

  /** Every node that is divided in `t` is divided in `u` too. */
  ghost predicate KeepsDivisions(t: Tree, u: Tree)
    decreases t
  {
    t.Split? ==>
      u.Split? &&
      KeepsDivisions(t.kids.nw, u.kids.nw) && KeepsDivisions(t.kids.ne, u.kids.ne) &&
      KeepsDivisions(t.kids.sw, u.kids.sw) && KeepsDivisions(t.kids.se, u.kids.se)
  }

  function Height(t: Tree): nat
    decreases t
  {
    match t
    case Leaf(_, _) => 0
    case Split(_, _, q) => 1 + Max(Max(Height(q.nw), Height(q.ne)), Max(Height(q.sw), Height(q.se)))
  }

  function Max(a: nat, b: nat): nat { if a < b then b else a }

  /** The points of `pts` that the insertion order sends to quadrant `k` of `r`. */
  function Routes(r: Rectangle, pts: seq<Point>, k: Quadrant): seq<Point> {
    if pts == [] then []
    else (if Target(r, pts[0]) == Some(k) then [pts[0]] else []) + Routes(r, pts[1..], k)
  }

  // ---------------------------------------------------------------------
  // Small facts about Quad

  lemma QuadShapedGet(q: Quad, r: Rectangle, lv: nat, k: Quadrant)
    requires QuadShaped(q, r, lv)
    ensures q.Get(k).boundary == Quarter(r, k) && Shaped(q.Get(k), lv)
  {
  }

  lemma QuadShapedSet(q: Quad, r: Rectangle, lv: nat, k: Quadrant, t: Tree)
    requires QuadShaped(q, r, lv)
    requires t.boundary == Quarter(r, k) && Shaped(t, lv)
    ensures QuadShaped(q.Set(k, t), r, lv)
  {
  }

  lemma QuadElementsSet(q: Quad, k: Quadrant, t: Tree)
    ensures QuadElements(q.Set(k, t)) + Elements(q.Get(k)) == QuadElements(q) + Elements(t)
  {
  }

  lemma SetGet(q: Quad, k: Quadrant)
    ensures q.Set(k, q.Get(k)) == q
  {
  }

  lemma GetSet(q: Quad, k: Quadrant, t: Tree, j: Quadrant)
    ensures q.Set(k, t).Get(j) == if j == k then t else q.Get(j)
  {
  }

  /** Four leaves on the quarters of `r`, each holding only points of its quarter. */
  ghost predicate LeafQuad(q: Quad, r: Rectangle) {
    forall k :: q.Get(k) == Leaf(Quarter(r, k), q.Get(k).points) &&
                (forall p :: p in q.Get(k).points ==> Quarter(r, k).Contains(p))
  }

  function Count(q: Quad): nat {
    |q.nw.points| + |q.ne.points| + |q.sw.points| + |q.se.points|
  }

  lemma LeafQuadShaped(q: Quad, r: Rectangle, lv: nat)
    requires LeafQuad(q, r)
    ensures QuadShaped(q, r, lv)
  {
    forall k ensures q.Get(k).boundary == Quarter(r, k) && Shaped(q.Get(k), lv) {
      assert q.Get(k) == Leaf(Quarter(r, k), q.Get(k).points);
    }
    assert q.nw == q.Get(NW) && q.ne == q.Get(NE) && q.sw == q.Get(SW) && q.se == q.Get(SE);
  }

  lemma CountGet(q: Quad, k: Quadrant)
    ensures |q.Get(k).points| <= Count(q)
  {
  }

  // ---------------------------------------------------------------------
  // Properties of insert

  /** `insert` accepts a point exactly when the node's boundary contains it.
      A rejected point leaves the subtree as it was; an accepted one is added
      to the subtree's points and nothing is lost or duplicated. The
      structure is kept. */
  lemma {:induction false} InsertSpec(t: Tree, p: Point, cap: nat, lv: nat)
    requires Shaped(t, lv)
    ensures var o := Insert(t, p, cap, lv);
      o.accepted == t.boundary.Contains(p) &&
      o.tree.boundary == t.boundary &&
      Shaped(o.tree, lv) &&
      (o.accepted ==> Elements(o.tree) == Elements(t) + multiset{p}) &&
      (!o.accepted ==> o.tree == t)
    decreases lv, 0, 1
  {
    if !t.boundary.Contains(p) {
    } else if t.Leaf? && (|t.points| < cap || lv == 0) {
      assert multiset(t.points + [p]) == multiset(t.points) + multiset{p};
    } else {
      InsertSpecDivided(t, p, cap, lv);
    }
  }

  /** The case of InsertSpec where the node is, or becomes, divided. */
  lemma {:induction false} InsertSpecDivided(t: Tree, p: Point, cap: nat, lv: nat)
    requires Shaped(t, lv) && t.boundary.Contains(p)
    requires t.Split? || (|t.points| >= cap && lv > 0)
    ensures var o := Insert(t, p, cap, lv);
      o.accepted && o.tree.boundary == t.boundary && Shaped(o.tree, lv) &&
      Elements(o.tree) == Elements(t) + multiset{p}
    decreases lv, 0, 0
  {
    InsertDivides(t, p, cap, lv);
    OfferedSpec(t, cap, lv - 1);
    RouteInside(Offered(t, cap, lv - 1), t.boundary, p, cap, lv - 1);
  }

  /** The children offered the point keep the structure Shaped describes and,
      with the points the node keeps, hold exactly the subtree's points. */
  lemma OfferedSpec(t: Tree, cap: nat, lv: nat)
    requires Shaped(t, lv + 1)
    ensures QuadShaped(Offered(t, cap, lv), t.boundary, lv)
    ensures QuadElements(Offered(t, cap, lv)) + multiset(Kept(t)) == Elements(t)
    decreases lv, 3
  {
    if t.Leaf? {
      PushDownSpec(Subdivide(t.boundary), t.boundary, t.points, cap, lv);
    }
  }

  /** A point inside the parent is accepted by one of its children, which
      keep their structure and gain exactly that point. */
  lemma RouteInside(q: Quad, r: Rectangle, p: Point, cap: nat, lv: nat)
    requires QuadShaped(q, r, lv) && r.Contains(p)
    ensures var o := RouteFrom(q, p, cap, lv, InsertionOrder);
      o.accepted && QuadShaped(o.quad, r, lv) && QuadElements(o.quad) == QuadElements(q) + multiset{p}
    decreases lv, 1, |InsertionOrder| + 1
  {
    RouteSpec(q, r, p, cap, lv, InsertionOrder);
    Cover(r, p);
  }

  /** Offering a point to the children in the order `ks` inserts it into the
      first child whose quarter contains it and changes no other child; if no
      quarter contains it, nothing changes and the result is false. */
  lemma {:induction false} RouteSpec(q: Quad, r: Rectangle, p: Point, cap: nat, lv: nat, ks: seq<Quadrant>)
    requires QuadShaped(q, r, lv)
    ensures var o := RouteFrom(q, p, cap, lv, ks);
      var f := FirstIn(r, p, ks);
      o.accepted == f.Some? &&
      QuadShaped(o.quad, r, lv) &&
      (f.Some? ==> o.quad == q.Set(f.value, Insert(q.Get(f.value), p, cap, lv).tree) &&
                   QuadElements(o.quad) == QuadElements(q) + multiset{p}) &&
      (f.None? ==> o.quad == q)
    decreases lv, 1, |ks|
  {
    if ks != [] {
      var k := ks[0];
      var u := q.Get(k);
      var o := Insert(u, p, cap, lv);
      assert o.accepted == Quarter(r, k).Contains(p) && o.tree.boundary == Quarter(r, k) && Shaped(o.tree, lv) &&
             (o.accepted ==> Elements(o.tree) == Elements(u) + multiset{p}) &&
             (!o.accepted ==> o.tree == u) by {
        QuadShapedGet(q, r, lv, k);
        InsertSpec(u, p, cap, lv);
      }
      if o.accepted {
        assert FirstIn(r, p, ks) == Some(k);
        assert RouteFrom(q, p, cap, lv, ks) == Routed(q.Set(k, o.tree), true);
        GrowChild(q, r, lv, k, o.tree, p);
      } else {
        assert FirstIn(r, p, ks) == FirstIn(r, p, ks[1..]);
        SetGet(q, k);
        assert RouteFrom(q, p, cap, lv, ks) == RouteFrom(q, p, cap, lv, ks[1..]);
        RouteSpec(q, r, p, cap, lv, ks[1..]);
      }
    }
  }

  /** Replacing a child by a well-placed tree holding one more point keeps
      the structure and adds exactly that point. */
  lemma GrowChild(q: Quad, r: Rectangle, lv: nat, k: Quadrant, t: Tree, p: Point)
    requires QuadShaped(q, r, lv)
    requires t.boundary == Quarter(r, k) && Shaped(t, lv)
    requires Elements(t) == Elements(q.Get(k)) + multiset{p}
    ensures QuadShaped(q.Set(k, t), r, lv)
    ensures QuadElements(q.Set(k, t)) == QuadElements(q) + multiset{p}
  {
    QuadShapedSet(q, r, lv, k, t);
    QuadElementsSet(q, k, t);
  }

  /** The push-down loop keeps the children's structure and moves exactly the
      given points into them, provided they lie inside the parent. */
  lemma {:induction false} PushDownSpec(q: Quad, r: Rectangle, pts: seq<Point>, cap: nat, lv: nat)
    requires QuadShaped(q, r, lv)
    requires forall p :: p in pts ==> r.Contains(p)
    ensures QuadShaped(PushDown(q, pts, cap, lv), r, lv)
    ensures QuadElements(PushDown(q, pts, cap, lv)) == QuadElements(q) + multiset(pts)
    decreases lv, 2, |pts|
  {
    if pts != [] {
      var p := pts[0];
      RouteSpec(q, r, p, cap, lv, InsertionOrder);
      Cover(r, p);
      var q' := RouteFrom(q, p, cap, lv, InsertionOrder).quad;
      PushDownSpec(q', r, pts[1..], cap, lv);
      assert pts == [p] + pts[1..];
      assert multiset(pts) == multiset{p} + multiset(pts[1..]);
    }
  }

  /** In an already divided node an accepted point goes to the first child of
      NE, NW, SE, SW whose quarter contains it; the other three children and
      the node's own points are untouched. */
  lemma {:induction false} InsertIntoDivided(t: Tree, p: Point, cap: nat, lv: nat)
    requires Shaped(t, lv) && t.Split? && t.boundary.Contains(p)
    ensures Target(t.boundary, p).Some?
    ensures var k := Target(t.boundary, p).value;
      Insert(t, p, cap, lv) ==
        Outcome(Split(t.boundary, t.points, t.kids.Set(k, Insert(t.kids.Get(k), p, cap, lv - 1).tree)), true)
  {
    Cover(t.boundary, p);
    RouteSpec(t.kids, t.boundary, p, cap, lv - 1, InsertionOrder);
  }

  /** Offering a point to four leaves that have room for it appends it to the
      leaf of its target quadrant and leaves the other three as they were. */
  lemma RouteIntoLeaves(q: Quad, r: Rectangle, p: Point, cap: nat, lv: nat)
    requires LeafQuad(q, r)
    requires lv == 0 || Count(q) < cap
    ensures var q' := RouteFrom(q, p, cap, lv, InsertionOrder).quad;
      LeafQuad(q', r) && Count(q') <= Count(q) + 1 &&
      forall k :: q'.Get(k).points == q.Get(k).points + (if Target(r, p) == Some(k) then [p] else [])
  {
    var f := Target(r, p);
    var q' := RouteFrom(q, p, cap, lv, InsertionOrder).quad;
    assert q' == if f.Some? then q.Set(f.value, Insert(q.Get(f.value), p, cap, lv).tree) else q by {
      LeafQuadShaped(q, r, lv);
      RouteSpec(q, r, p, cap, lv, InsertionOrder);
    }
    if f.Some? {
      var j := f.value;
      var leaf := q.Get(j);
      assert leaf == Leaf(Quarter(r, j), leaf.points);
      Cover(r, p);
      CountGet(q, j);
      assert Insert(leaf, p, cap, lv).tree == Leaf(Quarter(r, j), leaf.points + [p]);
      forall k ensures q'.Get(k) == Leaf(Quarter(r, k), q.Get(k).points + (if f == Some(k) then [p] else [])) {
        GetSet(q, j, Insert(leaf, p, cap, lv).tree, k);
        assert q.Get(k) == Leaf(Quarter(r, k), q.Get(k).points);
      }
    } else {
      forall k ensures q'.Get(k).points == q.Get(k).points + [] { }
    }
    assert q'.nw == q'.Get(NW) && q'.ne == q'.Get(NE) && q'.sw == q'.Get(SW) && q'.se == q'.Get(SE);
    assert q.nw == q.Get(NW) && q.ne == q.Get(NE) && q.sw == q.Get(SW) && q.se == q.Get(SE);
  }

  /** Pushing points into children that are leaves with room for all of them
      only appends: each child receives, in order, exactly the points the
      insertion order sends to its quarter, and stays a leaf. */
  lemma {:induction false} PushDownIntoLeaves(q: Quad, r: Rectangle, pts: seq<Point>, cap: nat, lv: nat)
    requires LeafQuad(q, r)
    requires lv == 0 || Count(q) + |pts| <= cap
    ensures forall k :: PushDown(q, pts, cap, lv).Get(k) == Leaf(Quarter(r, k), q.Get(k).points + Routes(r, pts, k))
    decreases |pts|
  {
    if pts == [] {
      forall k ensures PushDown(q, pts, cap, lv).Get(k) == Leaf(Quarter(r, k), q.Get(k).points + Routes(r, pts, k)) {
        assert q.Get(k) == Leaf(Quarter(r, k), q.Get(k).points);
        assert q.Get(k).points + [] == q.Get(k).points;
      }
    } else {
      var p := pts[0];
      var f := Target(r, p);
      var q' := RouteFrom(q, p, cap, lv, InsertionOrder).quad;
      var rest := PushDown(q', pts[1..], cap, lv);
      assert forall k :: rest.Get(k) == Leaf(Quarter(r, k), q'.Get(k).points + Routes(r, pts[1..], k)) &&
                         q'.Get(k).points == q.Get(k).points + (if f == Some(k) then [p] else []) by {
        RouteIntoLeaves(q, r, p, cap, lv);
        PushDownIntoLeaves(q', r, pts[1..], cap, lv);
      }
      forall k ensures rest.Get(k) == Leaf(Quarter(r, k), q.Get(k).points + Routes(r, pts, k)) {
        var add := if f == Some(k) then [p] else [];
        assert Routes(r, pts, k) == add + Routes(r, pts[1..], k);
        AppendAssoc(q.Get(k).points, add, Routes(r, pts[1..], k));
      }
      assert PushDown(q, pts, cap, lv) == rest;
    }
  }

  lemma AppendAssoc(a: seq<Point>, b: seq<Point>, c: seq<Point>)
    ensures a + b + c == a + (b + c)
  {
  }

  lemma RoutesLength(r: Rectangle, pts: seq<Point>, k: Quadrant)
    ensures |Routes(r, pts, k)| <= |pts|
  {
  }

  /** The children of a node that divides on overflow hold, once the push-down
      loop is done, exactly the node's old points, each in the quarter the
      insertion order picks for it, and are still leaves. */
  lemma SubdividePushDown(b: Rectangle, pts: seq<Point>, cap: nat, lv: nat)
    requires lv == 0 || |pts| <= cap
    ensures forall k :: PushDown(Subdivide(b), pts, cap, lv).Get(k) == Leaf(Quarter(b, k), Routes(b, pts, k))
  {
    var q := Subdivide(b);
    assert LeafQuad(q, b) && Count(q) == 0;
    PushDownIntoLeaves(q, b, pts, cap, lv);
    forall k ensures q.Get(k).points + Routes(b, pts, k) == Routes(b, pts, k) {
      assert q.Get(k).points == [];
    }
  }

  /** A point inside the parent is routed to its target child and accepted. */
  lemma RouteToTarget(q: Quad, r: Rectangle, p: Point, cap: nat, lv: nat)
    requires QuadShaped(q, r, lv) && r.Contains(p)
    ensures Target(r, p).Some?
    ensures var k := Target(r, p).value;
      RouteFrom(q, p, cap, lv, InsertionOrder) == Routed(q.Set(k, Insert(q.Get(k), p, cap, lv).tree), true)
  {
    Cover(r, p);
    RouteSpec(q, r, p, cap, lv, InsertionOrder);
  }

  /** `insert` on a node that is divided, or divides now, ends in a divided
      node whose children are the prepared ones with the point routed in. */
  lemma InsertDivides(t: Tree, p: Point, cap: nat, lv: nat)
    requires t.boundary.Contains(p) && lv > 0
    requires t.Split? || |t.points| >= cap
    ensures var routed := RouteFrom(Offered(t, cap, lv - 1), p, cap, lv - 1, InsertionOrder);
      Insert(t, p, cap, lv) == Outcome(Split(t.boundary, Kept(t), routed.quad), routed.accepted)
  {
  }

  /** The capacity rule holds after every `insert`: a node that overflows
      divides, its points are spread over fresh leaves that each get no more
      than the node held, and the node's own list is cleared. */
  lemma {:induction false} InsertKeepsCapacity(t: Tree, p: Point, cap: nat, lv: nat)
    requires Shaped(t, lv) && WithinCapacity(t, cap, lv)
    ensures WithinCapacity(Insert(t, p, cap, lv).tree, cap, lv)
    decreases lv, 0
  {
    if t.boundary.Contains(p) && !(t.Leaf? && (|t.points| < cap || lv == 0)) {
      var b := t.boundary;
      var kids := Offered(t, cap, lv - 1);
      InsertDivides(t, p, cap, lv);
      assert QuadShaped(kids, b, lv - 1) && QuadWithinCapacity(kids, cap, lv - 1) by {
        if t.Leaf? {
          PushDownFits(b, t.points, cap, lv - 1);
        }
      }
      RouteKeepsCapacity(kids, b, p, cap, lv - 1);
    }
  }

  /** Fresh children filled by the push-down loop with at most `cap` points
      are within capacity. */
  lemma PushDownFits(b: Rectangle, pts: seq<Point>, cap: nat, lv: nat)
    requires forall x :: x in pts ==> b.Contains(x)
    requires lv == 0 || |pts| <= cap
    ensures QuadShaped(PushDown(Subdivide(b), pts, cap, lv), b, lv)
    ensures QuadWithinCapacity(PushDown(Subdivide(b), pts, cap, lv), cap, lv)
  {
    var q := PushDown(Subdivide(b), pts, cap, lv);
    PushDownSpec(Subdivide(b), b, pts, cap, lv);
    SubdividePushDown(b, pts, cap, lv);
    forall k ensures WithinCapacity(q.Get(k), cap, lv) {
      RoutesLength(b, pts, k);
    }
    assert q.nw == q.Get(NW) && q.ne == q.Get(NE) && q.sw == q.Get(SW) && q.se == q.Get(SE);
  }

  /** Routing a point inside the parent into children that are within
      capacity leaves them within capacity. */
  lemma {:induction false} RouteKeepsCapacity(q: Quad, r: Rectangle, p: Point, cap: nat, lv: nat)
    requires QuadShaped(q, r, lv) && QuadWithinCapacity(q, cap, lv) && r.Contains(p)
    ensures QuadWithinCapacity(RouteFrom(q, p, cap, lv, InsertionOrder).quad, cap, lv)
    decreases lv, 1
  {
    RouteToTarget(q, r, p, cap, lv);
    var k := Target(r, p).value;
    var u := Insert(q.Get(k), p, cap, lv).tree;
    assert WithinCapacity(u, cap, lv) by {
      QuadShapedGet(q, r, lv, k);
      assert q.nw == q.Get(NW) && q.ne == q.Get(NE) && q.sw == q.Get(SW) && q.se == q.Get(SE);
      InsertKeepsCapacity(q.Get(k), p, cap, lv);
    }
    var q' := q.Set(k, u);
    forall j ensures WithinCapacity(q'.Get(j), cap, lv) {
      GetSet(q, k, u, j);
      assert q.nw == q.Get(NW) && q.ne == q.Get(NE) && q.sw == q.Get(SW) && q.se == q.Get(SE);
    }
    assert q'.nw == q'.Get(NW) && q'.ne == q'.Get(NE) && q'.sw == q'.Get(SW) && q'.se == q'.Get(SE);
  }

  /** `divided` never reverts: every node divided before an `insert` is
      divided after it. */
  lemma {:induction false} InsertKeepsDivisions(t: Tree, p: Point, cap: nat, lv: nat)
    requires Shaped(t, lv)
    ensures KeepsDivisions(t, Insert(t, p, cap, lv).tree)
    decreases lv
  {
    KeepsOwnDivisions(t);
    if t.Split? && t.boundary.Contains(p) {
      InsertIntoDivided(t, p, cap, lv);
      var k := Target(t.boundary, p).value;
      QuadShapedGet(t.kids, t.boundary, lv - 1, k);
      InsertKeepsDivisions(t.kids.Get(k), p, cap, lv - 1);
      forall j ensures KeepsDivisions(t.kids.Get(j), t.kids.Get(j)) {
        KeepsOwnDivisions(t.kids.Get(j));
      }
    }
  }

  lemma {:induction false} KeepsOwnDivisions(t: Tree)
    ensures KeepsDivisions(t, t)
    decreases t
  {
    if t.Split? {
      KeepsOwnDivisions(t.kids.nw);
      KeepsOwnDivisions(t.kids.ne);
      KeepsOwnDivisions(t.kids.sw);
      KeepsOwnDivisions(t.kids.se);
    }
  }

  /** `n` copies of the point `p`. */
  function Copies(p: Point, n: nat): (s: seq<Point>)
    ensures |s| == n && forall x :: x in s ==> x == p
  {
    if n == 0 then [] else [p] + Copies(p, n - 1)
  }

  lemma {:induction false} RoutesCopies(b: Rectangle, p: Point, n: nat, j: Quadrant)
    ensures Routes(b, Copies(p, n), j) == if Target(b, p) == Some(j) then Copies(p, n) else []
  {
    if n > 0 {
      RoutesCopies(b, p, n - 1, j);
      assert Copies(p, n)[1..] == Copies(p, n - 1);
    }
  }

  /** A full leaf holding only copies of `p` that receives `p` again divides,
      pushes every copy into the target quarter of `p`, which is then full
      itself, and sends the new copy after them. */
  lemma DuplicateDivides(b: Rectangle, p: Point, cap: nat, lv: nat)
    requires b.Contains(p) && lv > 0
    ensures Target(b, p).Some? && Quarter(b, Target(b, p).value).Contains(p)
    ensures var k := Target(b, p).value;
      Insert(Leaf(b, Copies(p, cap)), p, cap, lv).tree ==
        Split(b, [], Subdivide(b).Set(k, Insert(Leaf(Quarter(b, k), Copies(p, cap)), p, cap, lv - 1).tree))
  {
    PushCopies(b, p, cap, lv - 1);
    var k := Target(b, p).value;
    var full := Leaf(Quarter(b, k), Copies(p, cap));
    var kids := Subdivide(b).Set(k, full);
    var u := Insert(full, p, cap, lv - 1).tree;
    assert RouteFrom(kids, p, cap, lv - 1, InsertionOrder).quad == Subdivide(b).Set(k, u) by {
      CopiesShaped(b, p, cap, lv - 1, k);
      RouteToTarget(kids, b, p, cap, lv - 1);
      GetSet(Subdivide(b), k, full, k);
      SetTwice(Subdivide(b), k, full, u);
    }
    InsertDivides(Leaf(b, Copies(p, cap)), p, cap, lv);
  }

  /** The push-down loop sends every copy of `p` to the target quarter of `p`. */
  lemma PushCopies(b: Rectangle, p: Point, cap: nat, lv: nat)
    requires b.Contains(p)
    ensures Target(b, p).Some? && Quarter(b, Target(b, p).value).Contains(p)
    ensures var k := Target(b, p).value;
      PushDown(Subdivide(b), Copies(p, cap), cap, lv) == Subdivide(b).Set(k, Leaf(Quarter(b, k), Copies(p, cap)))
  {
    Cover(b, p);
    var k := Target(b, p).value;
    var full := Leaf(Quarter(b, k), Copies(p, cap));
    var kids := PushDown(Subdivide(b), Copies(p, cap), cap, lv);
    var want := Subdivide(b).Set(k, full);
    SubdividePushDown(b, Copies(p, cap), cap, lv);
    forall j ensures kids.Get(j) == want.Get(j) {
      RoutesCopies(b, p, cap, j);
      GetSet(Subdivide(b), k, full, j);
    }
    assert kids.nw == kids.Get(NW) && kids.ne == kids.Get(NE) && kids.sw == kids.Get(SW) && kids.se == kids.Get(SE);
    assert want.nw == want.Get(NW) && want.ne == want.Get(NE) && want.sw == want.Get(SW) && want.se == want.Get(SE);
  }

  /** Fresh children one of which holds copies of a point inside its quarter
      have the structure Shaped describes. */
  lemma CopiesShaped(b: Rectangle, p: Point, cap: nat, lv: nat, k: Quadrant)
    requires Quarter(b, k).Contains(p)
    ensures QuadShaped(Subdivide(b).Set(k, Leaf(Quarter(b, k), Copies(p, cap))), b, lv)
  {
    var kids := Subdivide(b).Set(k, Leaf(Quarter(b, k), Copies(p, cap)));
    assert LeafQuad(kids, b) by {
      forall j ensures kids.Get(j) == Leaf(Quarter(b, j), kids.Get(j).points) &&
                       (forall x :: x in kids.Get(j).points ==> Quarter(b, j).Contains(x)) {
        GetSet(Subdivide(b), k, Leaf(Quarter(b, k), Copies(p, cap)), j);
      }
    }
    LeafQuadShaped(kids, b, lv);
  }

  lemma SetTwice(q: Quad, k: Quadrant, a: Tree, c: Tree)
    ensures q.Set(k, a).Set(k, c) == q.Set(k, c)
  {
  }

  /** Why the source needs a depth guard: inserting a point into a full leaf
      that holds only copies of that same point divides once per level
      available, for any capacity and any number of levels, so without a
      bound the recursion of quadtree.js:80-85 never ends. */
  lemma {:induction false} DuplicateUsesEveryLevel(b: Rectangle, p: Point, cap: nat, lv: nat)
    requires b.Contains(p)
    ensures Height(Insert(Leaf(b, Copies(p, cap)), p, cap, lv).tree) == lv
    decreases lv
  {
    if lv > 0 {
      DuplicateDivides(b, p, cap, lv);
      var k := Target(b, p).value;
      var u := Insert(Leaf(Quarter(b, k), Copies(p, cap)), p, cap, lv - 1).tree;
      var q := Subdivide(b).Set(k, u);
      assert Height(Split(b, [], q)) == lv by {
        assert Height(u) == lv - 1 by {
          DuplicateUsesEveryLevel(Quarter(b, k), p, cap, lv - 1);
        }
        forall j ensures Height(q.Get(j)) == if j == k then lv - 1 else 0 {
          GetSet(Subdivide(b), k, u, j);
        }
        assert q.nw == q.Get(NW) && q.ne == q.Get(NE) && q.sw == q.Get(SW) && q.se == q.Get(SE);
      }
    }
  }
}
