/** The QuadTree class of quadtree.js:27-86 as an object structure: each node
    owns its four children, `insert` changes the node and its descendants in
    place, and every method is proved to change the tree exactly as the value
    model in module TreeModel says. */
module QuadTrees {
  import opened Geometry
  import TreeModel

  class QuadTree {
    const boundary: Rectangle
    const capacity: nat
    /** How many more times this node may subdivide; the depth guard that
        this model adds to the source. */
    const levels: nat
    var points: seq<Point>
    var divided: bool
    var northwest: QuadTree?
    var northeast: QuadTree?
    var southwest: QuadTree?
    var southeast: QuadTree?

    /** The objects this node and its descendants consist of. */
    ghost var Repr: set<object>

    /** The subtree rooted here as a value, kept in step with the fields. */
    ghost var M: TreeModel.Tree

    /** `c` is a well-placed child for quadrant `k`: owned by this node, its
        boundary the quarter `k` of this node's, with the same capacity and
        one level fewer. */
    ghost predicate ChildOk(c: QuadTree?, k: Quadrant)
      reads this, Repr
    {
      c != null && c in Repr && c in c.Repr && c.Repr <= Repr && this !in c.Repr &&
      c.boundary == Quarter(boundary, k) && c.capacity == capacity && c.levels + 1 == levels
    }

    /** The four children exist, are well placed, share no object and are
        themselves valid. */
    ghost predicate Subdivided()
      reads this, Repr
      decreases Repr, 0
    {
      this in Repr &&
      ChildOk(northwest, NW) && ChildOk(northeast, NE) &&
      ChildOk(southwest, SW) && ChildOk(southeast, SE) &&
      northwest.Repr !! northeast.Repr && northwest.Repr !! southwest.Repr &&
      northwest.Repr !! southeast.Repr && northeast.Repr !! southwest.Repr &&
      northeast.Repr !! southeast.Repr && southwest.Repr !! southeast.Repr &&
      northwest.Valid() && northeast.Valid() && southwest.Valid() && southeast.Valid()
    }

    /** The node invariant: `M` is the value of the fields, every point stored
        here lies inside the boundary, and a divided node has its children. */
    ghost predicate Valid()
      reads this, Repr
      decreases Repr, 1
    {
      this in Repr &&
      M.boundary == boundary && M.points == points && M.Split? == divided &&
      (forall p :: p in points ==> boundary.Contains(p)) &&
      (divided ==> Subdivided() && M.kids == TreeModel.Quad(northwest.M, northeast.M, southwest.M, southeast.M))
    }

    /** The constructor of quadtree.js:29-34, with the depth bound added. */
    constructor (boundary: Rectangle, n: nat, levels: nat)
      ensures Valid() && fresh(Repr) && Repr == {this}
      ensures this.boundary == boundary && capacity == n && this.levels == levels
      ensures points == [] && !divided && M == TreeModel.Leaf(boundary, [])
    {
      this.boundary := boundary;
      capacity := n;
      this.levels := levels;
      points := [];
      divided := false;
      M := TreeModel.Leaf(boundary, []);
      Repr := {this};
    }

    /** The four allocations of `subdivide` (quadtree.js:38-53): new, empty
        nodes on the quarters of `r`, computed from its centre and
        half-extents as the source does. */
    static method NewQuarters(r: Rectangle, n: nat, lv: nat) returns (a: QuadTree, b: QuadTree, c: QuadTree, d: QuadTree)
      ensures fresh({a, b, c, d}) && a != b && a != c && a != d && b != c && b != d && c != d
      ensures a.Repr == {a} && a.points == [] && !a.divided && a.M == TreeModel.Leaf(a.boundary, [])
      ensures b.Repr == {b} && b.points == [] && !b.divided && b.M == TreeModel.Leaf(b.boundary, [])
      ensures c.Repr == {c} && c.points == [] && !c.divided && c.M == TreeModel.Leaf(c.boundary, [])
      ensures d.Repr == {d} && d.points == [] && !d.divided && d.M == TreeModel.Leaf(d.boundary, [])
      ensures a.boundary == Quarter(r, NW) && b.boundary == Quarter(r, NE)
      ensures c.boundary == Quarter(r, SW) && d.boundary == Quarter(r, SE)
      ensures a.capacity == b.capacity == c.capacity == d.capacity == n
      ensures a.levels == b.levels == c.levels == d.levels == lv
    {
      var x, y, w, h := r.x, r.y, r.w, r.h;
      var nw := Rectangle(x - w / 2.0, y - h / 2.0, w / 2.0, h / 2.0);
      var ne := Rectangle(x + w / 2.0, y - h / 2.0, w / 2.0, h / 2.0);
      var sw := Rectangle(x - w / 2.0, y + h / 2.0, w / 2.0, h / 2.0);
      var se := Rectangle(x + w / 2.0, y + h / 2.0, w / 2.0, h / 2.0);
      a := new QuadTree(nw, n, lv);
      b := new QuadTree(ne, n, lv);
      c := new QuadTree(sw, n, lv);
      d := new QuadTree(se, n, lv);
    }

    /** `subdivide` (quadtree.js:37-54): gives the node four empty children
        whose boundaries quarter its own and which inherit its capacity. Like
        the source it does not set `divided`; `insert` does. */
    method Subdivide()
      requires Valid() && !divided && levels > 0
      modifies this
      ensures Valid() && !divided && points == old(points) && M == old(M)
      ensures Subdivided() && TreeModel.Quad(northwest.M, northeast.M, southwest.M, southeast.M) == TreeModel.Subdivide(boundary)
      ensures fresh(northwest) && fresh(northeast) && fresh(southwest) && fresh(southeast)
      ensures Repr == old(Repr) + {northwest, northeast, southwest, southeast}
    {
      var a, b, c, d := NewQuarters(boundary, capacity, levels - 1);
      northwest, northeast, southwest, southeast := a, b, c, d;
      Repr := Repr + {a, b, c, d};
    }

    /** `insert` (quadtree.js:56-86). A point outside the boundary is refused.
        An undivided node with room appends it. A full undivided node splits
        (SplitLeaf) and is divided from then on. A divided node offers the
        point to its children in the order NE, NW, SE, SW and the first that
        accepts it keeps it. The only departure from the source is the depth
        guard: a node with no levels left appends instead of splitting. */
    method Insert(p: Point) returns (ok: bool)
      requires Valid()
      modifies Repr
      ensures Valid() && fresh(Repr - old(Repr))
      ensures M == TreeModel.Insert(old(M), p, capacity, levels).tree
      ensures ok == TreeModel.Insert(old(M), p, capacity, levels).accepted
      decreases levels, 3
    {
      if !boundary.Contains(p) {
        ok := false;
      } else if !divided && (|points| < capacity || levels == 0) {
        points := points + [p];
        M := TreeModel.Leaf(boundary, points);
        ok := true;
      } else {
        if !divided {
          SplitLeaf();
        }
        ok := InsertIntoChildren(p);
      }
    }

    /** What a full undivided node does before routing a new point
        (quadtree.js:70-78): subdivide, offer each of its own points to the
        children in order, ignoring the result, empty its own list and become
        divided. */
    method SplitLeaf()
      requires Valid() && !divided && levels > 0
      modifies Repr
      ensures Valid() && divided && fresh(Repr - old(Repr))
      ensures M == TreeModel.Split(boundary, [],
                     TreeModel.PushDown(TreeModel.Subdivide(boundary), old(points), capacity, levels - 1))
      decreases levels, 2
    {
      Subdivide();
      MarkDivided();
      var i := 0;
      while i < |points|
        invariant 0 <= i <= |points| && points == old(points)
        invariant Valid() && divided && fresh(Repr - old(Repr))
        invariant TreeModel.PushDown(M.kids, points[i..], capacity, levels - 1) ==
                  TreeModel.PushDown(TreeModel.Subdivide(boundary), points, capacity, levels - 1)
      {
        assert points[i..][0] == points[i] && points[i..][1..] == points[i + 1..];
        var accepted := InsertIntoChildren(points[i]);
        i := i + 1;
      }
      ClearPoints();
    }

    /** `this.divided = true` right after `this.subdivide()` (quadtree.js:66-67). */
    method MarkDivided()
      requires Valid() && !divided && Subdivided() && TreeModel.Quad(northwest.M, northeast.M, southwest.M, southeast.M) == TreeModel.Subdivide(boundary)
      modifies this
      ensures Valid() && divided && points == old(points) && Repr == old(Repr)
      ensures M == TreeModel.Split(boundary, points, TreeModel.Subdivide(boundary))
    {
      divided := true;
      M := TreeModel.Split(boundary, points, TreeModel.Quad(northwest.M, northeast.M, southwest.M, southeast.M));
    }

    /** `this.points = []` once the points are pushed down (quadtree.js:77). */
    method ClearPoints()
      requires Valid() && divided
      modifies this
      ensures Valid() && divided && points == [] && Repr == old(Repr)
      ensures M == old(M).(points := [])
    {
      points := [];
      M := M.(points := []);
    }

    /** The short-circuiting chain of child inserts that quadtree.js writes
        twice (lines 72-75 and 81-84): the children are offered `p` in the
        order NE, NW, SE, SW until one accepts it. */
    method InsertIntoChildren(p: Point) returns (ok: bool)
      requires Valid() && divided && levels > 0
      modifies Repr
      ensures Valid() && divided && points == old(points) && fresh(Repr - old(Repr))
      ensures M == old(M).(kids := TreeModel.RouteFrom(old(M.kids), p, capacity, levels - 1, InsertionOrder).quad)
      ensures ok == TreeModel.RouteFrom(old(M.kids), p, capacity, levels - 1, InsertionOrder).accepted
      decreases levels, 1
    {
      ghost var q := M.kids;
      ok := InsertInto(NE, p);
      if !ok {
        ok := InsertInto(NW, p);
        if !ok {
          ok := InsertInto(SE, p);
          if !ok {
            ok := InsertInto(SW, p);
          }
        }
      }
      TreeModel.RouteChain(q, p, capacity, levels - 1);
    }

    /** One call `child.insert(p)` of that chain, for the child in quadrant `k`. */
    method InsertInto(k: Quadrant, p: Point) returns (ok: bool)
      requires Valid() && divided && levels > 0
      modifies Repr
      ensures Valid() && divided && points == old(points) && fresh(Repr - old(Repr))
      ensures M == old(M).(kids := old(M.kids).Set(k, TreeModel.Insert(old(M.kids).Get(k), p, capacity, levels - 1).tree))
      ensures ok == TreeModel.Insert(old(M.kids).Get(k), p, capacity, levels - 1).accepted
      decreases levels, 0
    {
      var c := match k case NW => northwest case NE => northeast case SW => southwest case SE => southeast;
      ok := c.Insert(p);
      Repr := Repr + c.Repr;
      M := M.(kids := TreeModel.Quad(northwest.M, northeast.M, southwest.M, southeast.M));
    }

    /** A valid node's value has the structure TreeModel.Shaped describes. */
    lemma ValidShaped()
      requires Valid()
      ensures TreeModel.Shaped(M, levels)
      decreases Repr
    {
      if divided {
        northwest.ValidShaped();
        northeast.ValidShaped();
        southwest.ValidShaped();
        southeast.ValidShaped();
      }
    }

    /** What `insert` promises of a valid node, read off the value model that
        Insert is proved to follow: the point is accepted exactly when the
        boundary contains it, an accepted point is stored exactly once more
        and nothing else is lost or added, a refused one changes nothing, the
        structure is kept, no divided node reverts, and a tree within its
        capacity stays within it. */
    lemma InsertOutcome(p: Point)
      requires Valid()
      ensures var o := TreeModel.Insert(M, p, capacity, levels);
        o.accepted == boundary.Contains(p) &&
        (o.accepted ==> TreeModel.Elements(o.tree) == TreeModel.Elements(M) + multiset{p}) &&
        (!o.accepted ==> o.tree == M) &&
        TreeModel.Shaped(o.tree, levels) &&
        TreeModel.KeepsDivisions(M, o.tree) &&
        (TreeModel.WithinCapacity(M, capacity, levels) ==> TreeModel.WithinCapacity(o.tree, capacity, levels))
    {
      ValidShaped();
      TreeModel.InsertSpec(M, p, capacity, levels);
      TreeModel.InsertKeepsDivisions(M, p, capacity, levels);
      if TreeModel.WithinCapacity(M, capacity, levels) {
        TreeModel.InsertKeepsCapacity(M, p, capacity, levels);
      }
    }
  }
}
