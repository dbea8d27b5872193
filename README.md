# Adaptive dual contouring over an octree, modelled in Dafny

This project models the core of an adaptive dual-contouring mesher. The
program samples a scalar field on a cube of half size 2 centred at the origin.
It refines the cube into an octree: a cell splits into eight octants while it
is larger than the minimum half size (0.1) and it is not homogeneous, meaning
not all of its eight corners strictly share the sign of its centre. Each
non-homogeneous leaf then walks the twelve edges of its cube. For every edge
whose end values have strictly opposite signs, it:

- interpolates the crossing point;
- records the point with the field's normal there as a constraint;
- appends itself to the global `cell_edge` map under the edge key `{p1, p2}`.

A least-squares solve of the constraints places the leaf's vertex.
`triangulate` then cuts the list registered under each edge key into
consecutive triples of vertices.

The model has three files:

- `vec3.dfy`, module `Vectors`: the vector class over exact reals. It has the
  operators and products, the normalisation guard, and the two static list
  folds (`ListDot`, `Determinant`) as loop methods proved against the
  recursive sum `ScaledSum`.
- `functions.dfy` holds two modules:
  - `Interpolation`: the pure edge interpolation `intersections`;
  - `Triangulation`: `triangulate` as two nested loops (`Triangulate`,
    `CutKey`), proved against the pure `Chunks` and `Assemble`.
- `octree.dfy`, module `Octree`:
  - `Cell` is a class. Its child slots are an `array<Cell?>` of length 8,
    and it has a ghost footprint (`Repr`, `Arrays`);
  - the two global maps `cell_id` and `cell_edge` are the fields of a
    `Session` object;
  - `Octree` is a class holding the root;
  - the pure reference layer beside them: `Build` is the shape
    `recursiveSplit` must produce, `PlaceAll` the `cell_edge` map that
    placement must produce, and `Placed` the vertex each cell must end with.

The state-changing methods are proved against that layer:

- `RecursiveSplit` leaves a valid tree whose shape is `Build` of its cube.
  It registers the cells it creates in `cell_id` in creation order.
- `Place` leaves `cell_edge` equal to `PlaceAll` over the leaves in visiting
  order, and every vertex equal to `Placed`.
- `Triangulate` returns `Assemble` of the registered vertex lists in the
  order its hash map yields.

The lemmas then state what these functions mean:

- `Refined` and `RefinedIsBuild`: every leaf is small or homogeneous, and
  every internal cell is large, not homogeneous and has eight half-size
  octants. This shape is unique.
- `LevelsIsCeilLog2` and `BuildDepth`: the depth is at most
  ceil(log2(h/min)).
- `PlaceAllGet` and `LeafRegistersOnce`: placement appends each leaf exactly
  once under each of its crossing edges' keys, and under no other key.
- `TriangleCountSpec` and `TriangleOrigin`: the triangles number
  Σ floor(|cells_k| / 3). Each has three vertices and is one triple of one
  key's list.
- `OrderIrrelevant`: the hash map's order permutes the triangles and
  changes nothing else.

The model covers the repository's files `src/octree.cpp`,
`src/functions.cpp`, `src/vec3.cpp` and the declarations in
`include/octree.h`. Two of the program's dependencies are not part of this
model:

- `tables.h`, which defines `edgeTable`. The model declares the twelve edges
  itself (`EdgeTable`): four along x, four along y and four along z, over the
  corner order of `place`.
- Eigen's `jacobiSvd`, which is a function parameter `solve`.

## Model

| member | source | states |
|---|---|---|
| Vectors.Add | src/vec3.cpp:8-10 | definition: the component-wise sum; its laws are AddCommutes, AddAssociates and SubAddCancel |
| Vectors.Sub | src/vec3.cpp:12-14 | definition: the component-wise difference; SubAddCancel undoes it |
| Vectors.Scale | src/vec3.cpp:16-18 | definition: every component times the scalar; DotLinearLeft and DotLinearRight use it |
| Vectors.Div | src/vec3.cpp:20-22 | definition: every component over a non-zero scalar; UnitAfterDivision is its property |
| Vectors.Equal | src/vec3.cpp:24-26 | definition: all three components equal; EqualIsValueEquality is its property |
| Vectors.Dot | src/vec3.cpp:29-31 | definition: the sum of component products; DotCommutes and the linearity lemmas are its properties |
| Vectors.Cross | src/vec3.cpp:34-40 | definition: the three 2x2 minors; CrossAntiCommutes and CrossOrthogonal are its properties |
| Vectors.Normalize | src/vec3.cpp:48-51 | the zero guard: a zero magnitude gives (0,0,0); a positive one gives the vector divided by its length, which has unit length |
| Vectors.UnitAfterDivision | src/vec3.cpp:48-51 | dividing a vector by its non-zero length gives squared length 1 |
| Vectors.MagnitudeZeroIff | src/vec3.cpp:43-51 | the length is zero exactly for the zero vector, so the guard fires only there |
| Vectors.SubAddCancel | src/vec3.cpp:8-14 | component-wise (a - b) + b == a |
| Vectors.AddCommutes | src/vec3.cpp:8-10 | vector addition is commutative |
| Vectors.AddAssociates | src/vec3.cpp:8-10 | vector addition is associative |
| Vectors.EqualIsValueEquality | src/vec3.cpp:24-26 | `==` holds exactly for equal vectors; it is reflexive and symmetric |
| Vectors.DotCommutes | src/vec3.cpp:29-31 | the dot product is symmetric |
| Vectors.DotLinearLeft | src/vec3.cpp:29-31 | the dot product is linear in its first argument |
| Vectors.DotLinearRight | src/vec3.cpp:29-31 | the dot product is linear in its second argument |
| Vectors.CrossAntiCommutes | src/vec3.cpp:34-40 | cross(a, b) == -cross(b, a) |
| Vectors.CrossOrthogonal | src/vec3.cpp:34-40 | the cross product is orthogonal to both operands |
| Vectors.ListDot | src/vec3.cpp:59-66 | the loop returns the sum over i < \|A\| of A[i] * B[i].x for any B at least as long as A |
| Vectors.Determinant | src/vec3.cpp:54-56 | the loop returns the sum of A[i] * A[i].x, which is (0,0,0) for an empty list |
| Vectors.ScaledSumPrefix | src/vec3.cpp:59-66 | the list fold reads only the first \|A\| entries of B |
| Vectors.ScaledSumAgree | src/vec3.cpp:59-66 | lists agreeing on their first n entries give the same fold |
| Vectors.ScaledSumAppend | src/vec3.cpp:54-56 | the fold of a concatenation is the sum of the two folds |
| Vectors.DeterminantXNonNegative | src/vec3.cpp:54-56 | the x component of the determinant placeholder is a sum of squares, never negative |
| Interpolation.Lerp | src/functions.cpp:11-13 | definition: the point p1 + t (p2 - p1), axis by axis; IntersectionIsAtFraction states what it is for the crossing |
| Interpolation.Fraction | src/functions.cpp:10 | t solves v1 + t (v2 - v1) = 0; with opposite signs 0 < t < 1 |
| Interpolation.Intersection | src/functions.cpp:9-14 | with opposite end signs the point lies strictly between the end points on every axis |
| Interpolation.IntersectionIsAtFraction | src/functions.cpp:10-13 | the crossing point minus p1 is the edge vector p2 - p1 scaled by t; with opposite end signs 0 < t < 1 |
| Interpolation.ZeroOfLinearField | src/functions.cpp:10-13 | for a field linear along the edge the point is an exact zero of the field |
| Interpolation.ZeroOfAffineField | src/functions.cpp:10-13 | for every affine field g.p + c the point is on the zero set |
| Interpolation.IntersectionSymmetric | src/functions.cpp:9-14 | walking the edge the other way gives the same point |
| Interpolation.FractionsComplement | src/functions.cpp:10 | the reversed edge's parameter is 1 - t |
| Triangulation.Vertices | src/functions.cpp:20-21 | the pushed vertices are the cells' vertices, one per cell, in order |
| Triangulation.Chunks | src/functions.cpp:20-26 | one triple per three vertices, so floor(n / 3) of them |
| Triangulation.ChunkAt | src/functions.cpp:20-25 | triple k is the vertices 3k, 3k+1 and 3k+2 |
| Triangulation.ChunksAppend | src/functions.cpp:22-24 | after a complete triple the buffer is empty and cutting starts afresh |
| Triangulation.RemainderDropped | src/functions.cpp:20-26 | a trailing group of one or two vertices is discarded |
| Triangulation.VertexLists | src/functions.cpp:18-21 | each key's vertex list has one entry per registered cell |
| Triangulation.Assemble | src/functions.cpp:18-27 | definition: the triples of each key's vertex list, keys in the given order; AssembleAppend, TriangleCountSpec, TriangleOrigin and OrderIrrelevant are its properties |
| Triangulation.Triangulate | src/functions.cpp:16-29 | every key is visited exactly once, and the result is Assemble of the vertex lists in that order; every triangle has three vertices and is a triple of one key's list |
| Triangulation.Origins | src/functions.cpp:19-25 | every triangle of any order of registered keys has three vertices and comes from a single key |
| Triangulation.CutKey | src/functions.cpp:19-26 | the inner loop appends exactly the triples of the key's vertex list |
| Triangulation.AssembleAppend | src/functions.cpp:18-27 | visiting keys in two runs emits the two runs' triangles in turn |
| Triangulation.TriangleCountSpec | src/functions.cpp:18-28 | the number of triangles is the sum over keys of floor(\|cells\| / 3); an empty map gives none |
| Triangulation.TriangleOrigin | src/functions.cpp:19-25 | every triangle has three vertices and is a triple of a single key's list, never mixing keys |
| Triangulation.KeyMoved | src/functions.cpp:18 | wherever a key falls in the order it contributes the same triangles |
| Triangulation.OrderIrrelevant | src/functions.cpp:18 | any two visiting orders of the same keys give the same multiset of triangles |
| Octree.SampleCorner | src/octree.cpp:38-40 | definition: corner i as `homogeneous` samples it, a set bit picking the minus side; CornerOrdersAgree relates it to `place` |
| Octree.ChildCenter | src/octree.cpp:49-51 | definition: the centre of child i, a set bit picking the plus side; ChildInsideParent and ChildCentersDistinct are its properties |
| Octree.EdgeTable | src/octree.cpp:86-88 | definition: the twelve edges as pairs of corner indices; EdgeTableInRange and EdgeKeysOrdered are its properties |
| Octree.PlaceCorners | src/octree.cpp:77-84 | `place` lists eight corners; CornerOrdersAgree shows they are the eight corners of the cube |
| Octree.EdgeTableInRange | src/octree.cpp:86-88 | every edge of the table indexes two of the eight corners |
| Octree.CornerOrdersAgree | src/octree.cpp:38-40 | the corners `homogeneous` samples are the corners `place` lists |
| Octree.ChildInsideParent | src/octree.cpp:49-52 | each child cube lies inside its parent |
| Octree.ChildCentersDistinct | src/octree.cpp:49-52 | the eight children of a non-degenerate cell have distinct centres |
| Octree.IsHomogeneous | src/octree.cpp:33-44 | definition: a generator is present and every corner value times the centre value is positive; HomogeneousIffSameSign states its meaning |
| Octree.AgreeCountFull | src/octree.cpp:36-43 | the count of agreeing corners reaches n exactly when all of the first n agree |
| Octree.HomogeneousIffSameSign | src/octree.cpp:33-44 | homogeneous exactly when all eight corners strictly share the centre's sign |
| Octree.ZeroCentreNotHomogeneous | src/octree.cpp:33-44 | a zero centre value or a null generator makes the cell not homogeneous |
| Octree.MeasureDecreases | src/octree.cpp:58-61 | halving a half size above the minimum strictly decreases the recursion measure |
| Octree.Build | src/octree.cpp:57-63 | definition: the shape `recursiveSplit` gives a cube; BuildIsRefined and RefinedIsBuild characterise it |
| Octree.BuildKidsAt | src/octree.cpp:60-62 | child k of a split cell is refined over its own octant |
| Octree.BuildIsRefined | src/octree.cpp:57-63 | the refined shape has the cell's cube; leaves are small or homogeneous; internal cells are large, not homogeneous and have eight half-size octants |
| Octree.RefinedIsBuild | src/octree.cpp:57-63 | only one shape meets those invariants: the refinement is determined by the cube and the field |
| Octree.BuildOfSplit | src/octree.cpp:59-62 | a split cell's shape is its eight children's refinements in slot order |
| Octree.LevelsIsCeilLog2 | src/octree.cpp:58 | the number of halvings before h <= min is ceil(log2(h / min)) |
| Octree.BuildDepth | src/octree.cpp:57-63 | no path of the refined tree has more internal cells than that number |
| Octree.ConstantFieldIsOneLeaf | src/octree.cpp:58 | a constant non-zero field leaves the cell a single leaf |
| Octree.Crosses | src/octree.cpp:89-91 | definition: the end values of edge e have a negative product; ConstraintOnEdge and HomogeneousEdgeNotCrossing are about it |
| Octree.EdgeConstraint | src/octree.cpp:92-94 | definition: the interpolated point of a crossing edge with the gradient there; ConstraintOnEdge places it inside the edge |
| Octree.CrossingKeys | src/octree.cpp:86-98 | definition: the keys of the crossing edges in table order; CrossingKeysSpec and CrossingKeysNoDuplicates are its properties |
| Octree.Constraints | src/octree.cpp:86-94 | definition: the constraints of the crossing edges in table order; CrossingKeysSpec pairs them with the keys |
| Octree.CrossingKeysSpec | src/octree.cpp:86-98 | one constraint per crossing edge; a key is listed exactly when some crossing edge has it |
| Octree.ConstraintOnEdge | src/octree.cpp:91-94 | each recorded crossing point lies strictly inside its edge |
| Octree.ZeroSizeNoCrossings | src/octree.cpp:86-91 | a cell of size zero has no crossing edge |
| Octree.HomogeneousNoCrossings | src/octree.cpp:76 | a homogeneous cell has no crossing edge, so the test in `place` only saves work |
| Octree.HomogeneousEdgeNotCrossing | src/octree.cpp:89-91 | no single edge of a homogeneous cell crosses |
| Octree.EdgeKeysOrdered | src/octree.cpp:95 | a key's first point is below its second along exactly one axis |
| Octree.SharedEdgeSameKey | src/octree.cpp:95-96 | two cells whose edges are the same segment (so cells of equal size) register it under the same key |
| Octree.KeySpan | src/octree.cpp:87-88 | a key's second point is its first moved by 2h along exactly one axis |
| Octree.SizesApartKeysApart | src/octree.cpp:95-96 | cells of different sizes never register an edge under the same key, so a coarse cell and a finer neighbour never share a `cell_edge` list |
| Octree.KeysDistinct | src/octree.cpp:95 | a non-degenerate cell's twelve edge keys are pairwise distinct |
| Octree.CrossingKeysNoDuplicates | src/octree.cpp:86-97 | a non-degenerate cell lists each crossing key once |
| Octree.Register | src/octree.cpp:96 | definition: the cell appended under each listed key in turn; RegisterSpec states its effect |
| Octree.RegisterOneMore | src/octree.cpp:96 | registering one more key appends the cell to that key's list |
| Octree.RegisterSpec | src/octree.cpp:96 | a key's list gains the cell once for each time the key is listed; only listed keys are added |
| Octree.LeafRegistersOnce | src/octree.cpp:86-98 | a leaf is appended exactly once under each crossing key and under no other key, whatever its size |
| Octree.PlaceAll | src/octree.cpp:75-116 | definition: each non-homogeneous leaf in turn registered under its crossing keys; PlaceAllGet states its effect |
| Octree.PlaceAllAppend | src/octree.cpp:116 | placing two runs of leaves is placing the first, then the second |
| Octree.LeafStep | src/octree.cpp:76-98 | one leaf's placement appends it under its own keys only |
| Octree.PlaceAllGet | src/octree.cpp:75-116 | after placement each key's list is its old list followed by the leaves crossing that edge, once each, in visiting order |
| Octree.RegisteredAreSolved | src/octree.cpp:91-114 | every cell registered under a key is a non-homogeneous leaf with that crossing edge, so its vertex is solved |
| Octree.Normals | src/octree.cpp:105-110 | definition: row i of the matrix is the normal of constraint i; PlaneResidual states what the rows mean |
| Octree.Offsets | src/octree.cpp:111 | definition: entry i of the vector is normal i dotted with point i; PlaneResidual states what the entries mean |
| Octree.QefSystem | src/octree.cpp:101-112 | the loop fills the matrix and vector; row i's residual at any point v is normal i dotted with v minus crossing point i, the plane the solve fits |
| Octree.PlaneResidual | src/octree.cpp:105-111 | row i times v minus entry i equals normal i dotted with (v - p_i): zero exactly on the plane through crossing i |
| Octree.Placed | src/octree.cpp:99-114 | definition: a placed leaf's vertex is the solved one when there is one and is otherwise unchanged; Solved and RegisteredAreSolved are about it |
| Octree.Solved | src/octree.cpp:99-114 | a vertex is produced exactly when the leaf is not homogeneous and some edge crosses |
| Octree.Session.constructor | src/octree.cpp:15-16 | both global maps start empty |
| Octree.RegisterCentres | src/octree.cpp:30 | definition: each cell in turn written into `cell_id` under its centre; RegisterCentresSpec and RegisterCentresLast state the effect |
| Octree.RegisterCentresSpec | src/octree.cpp:30 | a registered centre maps to a listed cell with that centre or keeps its old entry; a centre no listed cell has is untouched; a listed centre is present |
| Octree.RegisterCentresLast | src/octree.cpp:30 | each write overwrites the one before: the last listed cell with a centre is the one `cell_id` keeps |
| Octree.RegisterCentresAppend | src/octree.cpp:30 | registering two runs of cells is registering the first, then the second |
| Octree.ProgressionEnd | src/octree.cpp:116 | placing the children's leaf lists one at a time is placing their concatenation |
| Octree.Cell.LeafIsValid | src/octree.cpp:25-31 | a new leaf is a well-formed one-cell tree that is its own only leaf |
| Octree.Cell.constructor | src/octree.cpp:25-31 | a new cell is a leaf with eight null slots and vertex (0,0,0); `cell_id` maps its centre to it |
| Octree.Cell.Split | src/octree.cpp:46-55 | the cell is no longer a leaf; its eight slots hold distinct new leaves of half size at the octant centres, each with vertex (0,0,0), registered in slot order |
| Octree.Cell.MakeChildren | src/octree.cpp:48-54 | the loop fills all eight slots with new leaves of vertex (0,0,0) and registers each one |
| Octree.Cell.MakeChild | src/octree.cpp:49-53 | slot i gets a new leaf at its octant centre with vertex (0,0,0); the other slots are unchanged |
| Octree.Cell.NewLeaf | src/octree.cpp:49-53 | the new leaf for octant i, of half size, with vertex (0,0,0), registered under its centre |
| Octree.Cell.FreshLeavesValid | src/octree.cpp:46-55 | eight new leaves at the octant centres make a well-formed internal cell |
| Octree.Cell.RecursiveSplit | src/octree.cpp:57-63 | the subtree is well formed with the shape Build gives, every cell created has vertex (0,0,0), and `cell_id` gains the created cells in creation order |
| Octree.Cell.SplitAndRefine | src/octree.cpp:59-62 | the split branch gives the same shape and registrations |
| Octree.Cell.RefineChildren | src/octree.cpp:60-62 | refining the eight children gives the parent's shape |
| Octree.Cell.RefineEach | src/octree.cpp:60-62 | the loop refines every child, with disjoint footprints |
| Octree.Cell.RefineChild | src/octree.cpp:61 | one pass refines child i and leaves the other children untouched |
| Octree.Cell.RefineOne | src/octree.cpp:61 | a child's refinement stays apart from its parent and siblings |
| Octree.Cell.Adopt | src/octree.cpp:60-62 | after the loop the parent owns its children's subtrees and has its shape |
| Octree.Cell.ChildrenMakeValid | src/octree.cpp:59-62 | eight refined children with disjoint subtrees make the parent's refinement |
| Octree.Cell.ChildCreatedIsConcat | src/octree.cpp:60-62 | the cells created below the children, in order, are the children's creations concatenated |
| Octree.Cell.Homogeneous | src/octree.cpp:33-44 | the counting loop returns true exactly when the generator is present and all eight corners agree with the centre |
| Octree.Cell.Place | src/octree.cpp:75-116 | `cell_edge` becomes placement over the leaves in visiting order; exactly the leaves' vertices change, to their placed values |
| Octree.Cell.PlaceLeaf | src/octree.cpp:76-115 | a qualifying leaf registers under its crossing keys and keeps its vertex when it has none |
| Octree.Cell.PlaceEdge | src/octree.cpp:86-98 | one pass of the edge loop extends the constraints and registrations by edge e |
| Octree.Cell.PlaceChildren | src/octree.cpp:116 | the other branch places the children in slot order and changes nothing at this cell |
| Octree.Cell.PrepareVisit | src/octree.cpp:116 | the slot lists concatenate to the subtree's leaves |
| Octree.Cell.VisitSlots | src/octree.cpp:116 | the child loop places every slot in turn |
| Octree.Cell.PlaceChild | src/octree.cpp:116 | one pass places the subtree in slot i and no other cell |
| Octree.Cell.FinishVisiting | src/octree.cpp:116 | after the loop exactly the subtree's leaves are placed |
| Octree.NewRoot | src/octree.cpp:116 | the root is made, registered under its centre and refined to the unique refined shape of its cube; every cell of the tree has vertex (0,0,0) |
| Octree.Octree.constructor | src/octree.cpp:116 | the tree is the refinement of the cube of half size 2 at the origin down to half size 0.1, with every vertex (0,0,0) before placement |
| Octree.Octree.PlaceVertex | src/octree.cpp:116 | placing the root places every leaf of the tree in order |
| Octree.TreeDepth | src/octree.cpp:116 | the tree built by the constructor has at most five levels below the root, whatever the field |

## Left out

- The sources do not compile as given, and the model follows their evident
  intent in three places:
  - Generator type: the cell's generator takes three floats
    (include/octree.h:18) but the sphere field takes a vector. The model's
    `Field` takes three reals.
  - `cell_edge` key type: the map is declared keyed by `string`
    (include/octree.h:33) but defined keyed by `vector<Vec3>`
    (src/octree.cpp:16). The model follows the definition: the key is the
    ordered pair `EdgeKey(p1, p2)`.
  - src/octree.cpp:116 is one line holding literal `\n` escapes. It is read
    as the code it spells out: the else branch of `place`, the `Octree`
    constructor and `placeVertex`.
- Floating point: coordinates and field values are exact reals. Rounding,
  overflow, NaN and infinities are not modelled. The same goes for the float
  hashing of `std::hash<Vec3>`: the maps are keyed by value equality.
- The default `Cell()` constructor with its minus-infinity vertex is not
  modelled: nothing in the core calls it.
- `edgeTable`: tables.h is not part of this model. `EdgeTable` declares the
  twelve cube edges over the corner order of `place`, each with its lower
  corner first.
- `magnitude`'s square root is not modelled. `Normalize` takes the length as
  a parameter constrained by `IsMagnitude`.
- The SVD solve (Eigen's `jacobiSvd`) is the parameter `solve`, applied to
  the matrix and vector the loop fills. Its least-squares quality is not
  modelled.
- The field's gradient (`sphere_gradient`) and the field itself (the sphere
  of generation.cpp) are parameters.
- The `qr` flag of `place` is always forced true before it is read, so it is
  left out.
- Console output (`printCells`, `Octree::print`, `Vec3::print`) and the
  entry points (`main`, and the leftover main.cpp text) are left out as I/O.
- Hash-map iteration order: `Triangulate` picks each next key
  nondeterministically and returns the order it used as a ghost value.
  `OrderIrrelevant` shows that the order affects only the order of the
  triangles.
- Octree.Cell.RecursiveSplit requires a cell freshly made as a leaf. The
  program only ever calls it on such a cell: the root, or the children that
  `split` has just made. The `if (children[i])` test in its loop is always
  true after `split`, so the model has no null branch.
- Octree.Cell.RecursiveSplit, Octree.Build and Octree.NewRoot require a
  positive minimum half size. The program passes 0.1. Over exact reals a
  minimum of zero or less would never stop halving a non-homogeneous cell;
  in floats the half size would underflow to zero, and the model does not
  follow that.
- Octree.Cell.Place requires the generator to be present. With a null
  generator `homogeneous` is false, so `place` would call the null function
  pointer on a leaf.
- Vectors.ListDot requires |B| >= |A|. The source reads `B[i]` for every
  index of A, and a shorter B is undefined behaviour.
- Vectors.Div requires a non-zero divisor. `Normalize`, its only user,
  divides only by a positive length.
- Interpolation.Intersection requires v1 != v2, the division it performs.
  `place` calls it only when v1 * v2 < 0.
- Triangulation.Triangulate does not filter out cells whose vertex was never
  placed, and neither does the program. Such a filter is unnecessary:
  `RegisteredAreSolved` shows that every registered cell got a solved
  vertex. The group size is 3, as the code has it.
- tests/test_dual_contouring.cpp uses an interface the program does not
  have, so it states nothing that is modelled here.
