# QuadTree point partitioning, modelled in Dafny

This project models the spatial core of a p5.js sketch, `quadtree.js`.
- Its value records are a labelled `Point` and a `Rectangle`, given by a centre and half-extents, with an inclusive `contains`.
- Its `QuadTree` class stores points in a node until the node's capacity is reached.
- On overflow, a node subdivides into four children with quartered boundaries. It pushes its own points down into them and offers each new point to the children in the fixed order NE, NW, SE, SW, where the first child that accepts it keeps it.

The project has three modules:

- `Geometry` (`geometry.dfy`) covers points, rectangles and containment, and the quarters of a rectangle. It also covers the insertion order and the quadrant that order picks for a point (`Target`). Its lemmas show three things:
  - The quarters cover the parent exactly.
  - A point inside the parent always has a target.
  - Two quarters overlap only on the parent's centre lines.
- `TreeModel` (`tree_model.dfy`) is a value model of the tree.
  - `Insert`, `RouteFrom` (the short-circuit chain of child inserts) and `PushDown` (the push-down loop) are written step by step after `insert`.
  - The lemmas about them state what `insert` promises:
    - acceptance exactly when the boundary contains the point;
    - conservation of the stored points as a multiset;
    - the structural invariant (`Shaped`);
    - the capacity rule (`WithinCapacity`);
    - divided nodes never reverting;
    - where an accepted point goes, and where the pushed-down points go.
- `QuadTrees` (`quadtree.dfy`) holds the source's class as a Dafny `class QuadTree`.
  - It has the source's fields, and `insert` and `subdivide` change the nodes in place.
  - A ghost field `M` holds the subtree's value, and `Valid()` ties `M` to the fields.
  - Every method is proved to change `M` exactly as `TreeModel` says. `InsertOutcome` then carries the value-level properties over to the objects.

The model differs from the source in one deliberate way: it adds a depth bound.
- The source has no depth guard. Inserting a point into a full leaf that already holds copies of it subdivides again at every level, so the recursion of `insert` never ends. `TreeModel.DuplicateUsesEveryLevel` proves that this happens whatever bound is chosen.
- Each node of the model therefore carries `levels`, the number of further subdivisions it may make. The constructor takes the root's value, and each child gets one less.
- A node with no levels left appends every point it contains, even past its capacity. Everywhere else the model follows the code.

Coordinates are exact reals. Two details are kept as the code has them:
- `subdivide` itself does not set `divided`; `insert` does that right after calling it.
- A point has `x`, `y` and a label, and nothing else. The label field is called `name`, because `label` is a Dafny keyword.

## Model

| member | source | states |
|---|---|---|
| `Geometry.Rectangle.Contains` | quadtree.js:17-24 | inclusive containment on all four bounds, centre plus or minus half-extent; its relation to the quarters is proved in `Geometry.Cover` |
| `Geometry.Quarter` | quadtree.js:43-49 | the boundary of child NW, NE, SW or SE: half the half-extents, centre offset by them; its bounds are proved in `Geometry.QuarterBounds` |
| `Geometry.FirstIn` | quadtree.js:72-75 | the first quadrant of a list whose quarter contains the point, the short-circuit of the child chain; characterised by `Geometry.FirstInSpec` |
| `Geometry.Target` | quadtree.js:81-84 | `FirstIn` over the fixed order NE, NW, SE, SW (`InsertionOrder`), the quadrant whose child keeps an accepted point; `Geometry.Cover` proves it exists exactly for points inside the box |
| `TreeModel.Subdivide` | quadtree.js:37-54 | four empty leaves on the NW, NE, SW and SE quarters of the boundary; the class method `Subdivide` is proved to build exactly these |
| `TreeModel.Insert` | quadtree.js:56-86 | refuse outside the boundary; append while undivided with room (or, under the depth bound, with no levels left); otherwise divide if needed and route to the children; its properties are `TreeModel.InsertSpec`, `TreeModel.InsertKeepsCapacity` and `TreeModel.InsertKeepsDivisions` |
| `TreeModel.Offered` | quadtree.js:66-78 | the children a point is routed to: a divided node's own, or fresh ones filled by the push-down; characterised by `TreeModel.OfferedSpec` |
| `TreeModel.Kept` | quadtree.js:77 | the node's own list after dividing: emptied by a leaf that divides, kept by a divided node |
| `TreeModel.RouteFrom` | quadtree.js:72-75 | the short-circuit chain of child inserts over a list of quadrants, each child after a refusal seeing the state the refusing child left; characterised by `TreeModel.RouteSpec` and unrolled by `TreeModel.RouteChain` |
| `TreeModel.PushDown` | quadtree.js:71-76 | each of the node's points in order routed into the children, results ignored; characterised by `TreeModel.PushDownSpec` and `TreeModel.PushDownIntoLeaves` |
| `Geometry.QuarterBounds` | quadtree.js:43-49 | each child box has half the parent's half-extents and spans exactly the west or east half and the north or south half of the parent, so siblings meet on the parent's centre lines |
| `Geometry.FirstInSpec` | quadtree.js:80-85 | the short-circuit order finds nothing exactly when no listed quarter contains the point; otherwise it finds the earliest listed quarter that contains it |
| `Geometry.Cover` | quadtree.js:17-24 | a rectangle contains a point exactly when one of its quarters does, and exactly when the insertion order yields a target quarter; the target quarter contains the point |
| `Geometry.QuartersMeetOnCentreLines` | quadtree.js:43-49 | a point contained by two different quarters lies on one of the parent's centre lines, the only place where the insertion order breaks ties |
| `TreeModel.RouteChain` | quadtree.js:81-84 | routing over the insertion order is the source's chain of four child inserts NE, NW, SE, SW, each tried only when the previous one refused the point, with the result of the first that accepts it |
| `TreeModel.InsertSpec` | quadtree.js:56-86 | insert accepts a point exactly when the node's boundary contains it. A refused point leaves the subtree unchanged. An accepted point is added to the subtree's multiset of points once, with nothing lost or duplicated. The boundary and the structure (points inside their node, children on the quarters) are kept |
| `TreeModel.InsertSpecDivided` | quadtree.js:66-85 | a node that is divided, or divides now because it is full, accepts a point inside its boundary, keeps its structure and gains exactly that point |
| `TreeModel.OfferedSpec` | quadtree.js:66-78 | the children offered a new point keep the structure, and together with the points the node keeps they hold exactly the node's old points |
| `TreeModel.RouteInside` | quadtree.js:80-85 | offering a point inside the parent to its children always succeeds; the children keep their structure and gain exactly that point |
| `TreeModel.RouteSpec` | quadtree.js:72-75 | the chain over any list of quadrants inserts the point into the first child whose quarter contains it and leaves the other children unchanged; if no listed quarter contains it, nothing changes and the result is false |
| `TreeModel.PushDownSpec` | quadtree.js:71-76 | the push-down loop keeps the children's structure and moves exactly the node's points into them |
| `TreeModel.InsertIntoDivided` | quadtree.js:80-85 | in a divided node, an accepted point goes into the child of its target quadrant, and the other three children and the node's own list are untouched |
| `TreeModel.RouteIntoLeaves` | quadtree.js:72-75 | offering a point to leaves with room appends it to the leaf of its target quadrant, and the others are unchanged |
| `TreeModel.PushDownIntoLeaves` | quadtree.js:71-76 | pushing points into leaves with room gives each leaf, in order, exactly the points whose target is its quadrant |
| `TreeModel.SubdividePushDown` | quadtree.js:66-78 | after a full leaf divides, each fresh child is a leaf on its quarter that holds, in order, the old points whose target is that quarter |
| `TreeModel.RouteToTarget` | quadtree.js:80-85 | a point inside the parent has a target quarter, and routing it replaces exactly that child with the child's insert and reports acceptance |
| `TreeModel.InsertKeepsCapacity` | quadtree.js:61-78 | insert preserves the capacity rule: if it held before, it holds after. The rule says every undivided node holds at most the capacity (unless it has no levels left), and every divided node holds no points itself |
| `TreeModel.PushDownFits` | quadtree.js:66-78 | the fresh children of a node that held at most the capacity are within capacity once its points are pushed down |
| `TreeModel.RouteKeepsCapacity` | quadtree.js:80-85 | routing a point inside the parent into children within capacity leaves them within capacity |
| `TreeModel.InsertKeepsDivisions` | quadtree.js:66-68 | `divided` never reverts: every node divided before an insert is still divided after it |
| `TreeModel.PushCopies` | quadtree.js:71-76 | pushing copies of one point down puts all of them into that point's target quarter |
| `TreeModel.DuplicateDivides` | quadtree.js:66-85 | a full leaf holding only copies of `p` that receives `p` again divides, and becomes a node whose one non-empty child is a full leaf of copies of `p` receiving `p` again |
| `TreeModel.DuplicateUsesEveryLevel` | quadtree.js:56-86 | inserting a point into a full leaf of its own copies builds a tree of height equal to the number of levels allowed, for every capacity; without a bound the source's recursion does not end |
| `QuadTrees.QuadTree.constructor` | quadtree.js:29-34 | a new node has the given boundary and capacity, no points, is not divided, owns only itself and is valid |
| `QuadTrees.QuadTree.NewQuarters` | quadtree.js:38-53 | four new, distinct, empty nodes on the NW, NE, SW and SE quarters of the boundary, computed from its centre and half-extents, with the parent's capacity |
| `QuadTrees.QuadTree.Subdivide` | quadtree.js:37-54 | the node gains four fresh, valid, empty children on the quarters of its boundary and with its capacity; its points, `divided` flag and value are unchanged |
| `QuadTrees.QuadTree.Insert` | quadtree.js:56-86 | the node and its descendants change exactly as the value model's insert says, and the returned boolean is its result; only fresh objects join the structure |
| `QuadTrees.QuadTree.SplitLeaf` | quadtree.js:66-78 | a full leaf subdivides, becomes divided, pushes its points down in order into the children, and empties its list |
| `QuadTrees.QuadTree.MarkDivided` | quadtree.js:68 | after subdividing, the node is divided and its value has the fresh, empty children |
| `QuadTrees.QuadTree.ClearPoints` | quadtree.js:77 | the divided node's own list becomes empty and nothing else changes |
| `QuadTrees.QuadTree.InsertIntoChildren` | quadtree.js:80-85 | the children change exactly as routing over NE, NW, SE, SW says, and the result is whether one of them accepted the point |
| `QuadTrees.QuadTree.InsertInto` | quadtree.js:81 | one child insert: exactly the chosen child changes, as insert says, and its result is returned |
| `QuadTrees.QuadTree.ValidShaped` | quadtree.js:37-54 | the value of a valid node has the structure `Shaped` describes: points inside their node, and the children of a divided node on its quarters with one level fewer |
| `QuadTrees.QuadTree.InsertOutcome` | quadtree.js:56-86 | on a valid node, insert accepts exactly the points inside the boundary. An accepted point is stored exactly once more, with nothing else lost or added, and a refused one changes nothing. The structure is kept, no divided node reverts, and a tree within its capacity stays within it |

## Left out

- `show` (quadtree.js:88-115) only draws through p5.js and is not modelled. Neither is the rest of the sketch or the data preparation script, which load points and render them.
- The enumeration of all stored points and the lookup of a point's quadrant centre are not implemented in `quadtree.js`, so they are not part of this model. The ghost function `TreeModel.Elements` gives the stored points as a multiset for the specification only.
- JavaScript numbers are floating point. The model uses exact reals, so halving and the offsets of subdivision never round, and a point inside a node always fits one of its quarters.
- Points are values. The source's object identity of points is not represented, so two equal points are indistinguishable here.
- The depth bound `levels`, including the constructor's extra parameter, is added to make `insert` terminate. The source recurses without end on duplicate points, and also on every point inside the boundary when the capacity is 0, because the test of quadtree.js:61 is then never true. Under the bound such points are stored at depth `levels`: `DuplicateUsesEveryLevel` with a capacity of 0 is the case of an empty leaf.
- `TreeModel.InsertKeepsCapacity`: a leaf with no levels left may hold more than `capacity` points, because the depth bound appends there instead of dividing. The source never stops dividing.
- The source's `insert` is split into `Insert`, `SplitLeaf`, `MarkDivided`, `ClearPoints`, `InsertIntoChildren` and `InsertInto`. They perform the same steps in the same order.
- The value model's `Split` keeps a node's own `points` list. It is always empty for trees built by insert, because the list is cleared when the node divides.
