/** The value records of quadtree.js: points, axis-aligned boxes given by a
    centre and half-extents, and the four quarters a box splits into. */
module Geometry {

  datatype Option<T> = None | Some(value: T)

  /** A labelled point of the canvas (quadtree.js:1-7). The label is held in
      `name`, since `label` is a keyword of Dafny.
      Coordinates are exact reals, so halving and the offsets of subdivision
      never round. */
  datatype Point = Point(x: real, y: real, name: string)

  /** A box with centre (x, y) and half-extents w and h (quadtree.js:9-15). */
  datatype Rectangle = Rectangle(x: real, y: real, w: real, h: real) {

    /** Inclusive containment on all four bounds (quadtree.js:17-24). */
    predicate Contains(p: Point) {
      p.x >= x - w &&
      p.x <= x + w &&
      p.y >= y - h &&
      p.y <= y + h
    }
  }

  /** The four children of a subdivided node. North is the smaller y,
      as on the canvas. */
  datatype Quadrant = NW | NE | SW | SE

  predicate IsWest(k: Quadrant) { k == NW || k == SW }

  predicate IsNorth(k: Quadrant) { k == NW || k == NE }

  /** The boundary of child `k` of a node with boundary `r` (quadtree.js:43-49). */
  function Quarter(r: Rectangle, k: Quadrant): Rectangle {
    var hw := r.w / 2.0;
    var hh := r.h / 2.0;
    match k
    case NW => Rectangle(r.x - hw, r.y - hh, hw, hh)
    case NE => Rectangle(r.x + hw, r.y - hh, hw, hh)
    case SW => Rectangle(r.x - hw, r.y + hh, hw, hh)
    case SE => Rectangle(r.x + hw, r.y + hh, hw, hh)
  }

  /** A quarter has half the parent's half-extents and spans exactly the west
      or east half of the parent's x-range and the north or south half of its
      y-range, meeting its siblings on the parent's centre lines. */
  lemma QuarterBounds(r: Rectangle, k: Quadrant)
    ensures var c := Quarter(r, k);
      c.w == r.w / 2.0 && c.h == r.h / 2.0 &&
      c.x - c.w == (if IsWest(k) then r.x - r.w else r.x) &&
      c.x + c.w == (if IsWest(k) then r.x else r.x + r.w) &&
      c.y - c.h == (if IsNorth(k) then r.y - r.h else r.y) &&
      c.y + c.h == (if IsNorth(k) then r.y else r.y + r.h)
  {
  }

  /** The order in which `insert` offers a point to the children
      (quadtree.js:72-75 and 81-84). */
  const InsertionOrder: seq<Quadrant> := [NE, NW, SE, SW]

  /** The first quadrant of `ks` whose quarter of `r` contains `p`. */
  function FirstIn(r: Rectangle, p: Point, ks: seq<Quadrant>): Option<Quadrant> {
    if ks == [] then None
    else if Quarter(r, ks[0]).Contains(p) then Some(ks[0])
    else FirstIn(r, p, ks[1..])
  }

  /** FirstIn finds nothing exactly when no quarter named in `ks` contains
      `p`, and otherwise the earliest one that does. */
  lemma {:induction false} FirstInSpec(r: Rectangle, p: Point, ks: seq<Quadrant>)
    ensures var f := FirstIn(r, p, ks);
      (f.None? <==> forall k :: k in ks ==> !Quarter(r, k).Contains(p)) &&
      (f.Some? ==> exists i :: 0 <= i < |ks| && ks[i] == f.value && Quarter(r, ks[i]).Contains(p) &&
                              forall j :: 0 <= j < i ==> !Quarter(r, ks[j]).Contains(p))
  {
    if ks != [] && !Quarter(r, ks[0]).Contains(p) {
      FirstInSpec(r, p, ks[1..]);
      var f := FirstIn(r, p, ks[1..]);
      assert forall k :: k in ks ==> k == ks[0] || k in ks[1..];
      if f.Some? {
        var i :| 0 <= i < |ks[1..]| && ks[1..][i] == f.value && Quarter(r, ks[1..][i]).Contains(p) &&
                 forall j :: 0 <= j < i ==> !Quarter(r, ks[1..][j]).Contains(p);
        assert ks[i + 1] == f.value;
        forall j | 0 <= j < i + 1 ensures !Quarter(r, ks[j]).Contains(p) {
          if j > 0 { assert ks[j] == ks[1..][j - 1]; }
        }
      }
    }
  }

  /** The quadrant of `r` that receives `p` under the insertion order. */
  function Target(r: Rectangle, p: Point): Option<Quadrant> {
    FirstIn(r, p, InsertionOrder)
  }

  /** The quarters cover their parent and nothing outside it: a box contains a
      point exactly when one of its quarters does, so routing an accepted
      point to the children can never fail under exact arithmetic. */
  lemma Cover(r: Rectangle, p: Point)
    ensures r.Contains(p) <==> exists k :: Quarter(r, k).Contains(p)
    ensures r.Contains(p) <==> Target(r, p).Some?
    ensures Target(r, p).Some? ==> Quarter(r, Target(r, p).value).Contains(p)
  {
    var k := if p.x <= r.x then (if p.y <= r.y then NW else SW)
             else (if p.y <= r.y then NE else SE);
    FirstInSpec(r, p, InsertionOrder);
    if r.Contains(p) {
      QuarterBounds(r, k);
      assert Quarter(r, k).Contains(p);
      assert k in InsertionOrder;
    }
    forall k' | Quarter(r, k').Contains(p) ensures r.Contains(p) {
      QuarterBounds(r, k');
      var c := Quarter(r, k');
      assert c.x - c.w <= c.x + c.w && c.y - c.h <= c.y + c.h;
    }
  }

  /** Sibling quarters overlap only on the parent's centre lines, which is
      where the insertion order decides the owner. */
  lemma QuartersMeetOnCentreLines(r: Rectangle, p: Point, a: Quadrant, b: Quadrant)
    requires a != b
    requires Quarter(r, a).Contains(p) && Quarter(r, b).Contains(p)
    ensures p.x == r.x || p.y == r.y
  {
    QuarterBounds(r, a);
    QuarterBounds(r, b);
    var ca, cb := Quarter(r, a), Quarter(r, b);
    if IsWest(a) != IsWest(b) {
      assert ca.x - ca.w <= p.x <= ca.x + ca.w && cb.x - cb.w <= p.x <= cb.x + cb.w;
    } else {
      assert IsNorth(a) != IsNorth(b);
      assert ca.y - ca.h <= p.y <= ca.y + ca.h && cb.y - cb.h <= p.y <= cb.y + cb.h;
    }
  }
}
