/** The adaptive octree: cells that split themselves where the scalar field
    changes sign, the global cell registries, and vertex placement. */
module Octree {
  import opened Vectors
  import opened Interpolation

  datatype Option<T> = None | Some(value: T)

  /** The scalar field a cell samples (a plain function pointer in the program). */
  type Field = (real, real, real) -> real

  function Eval(f: Field, p: Vec3): real {
    f(p.x, p.y, p.z)
  }

  /** Bit `b` (1, 2 or 4) of a corner or child index, as `i & b`. */
  predicate HasBit(i: int, b: int)
    requires b > 0
  {
    (i / b) % 2 == 1
  }

  // ---------------------------------------------------------------------
  // Geometry of a cell centred at c with half edge length h
  // ---------------------------------------------------------------------

  /** The corner sampled by `homogeneous` for index i: a set bit picks the
      minus side of that axis (bit 1 for x, 2 for y, 4 for z). */
  function SampleCorner(c: Vec3, h: real, i: int): Vec3 {
    Vec3(if HasBit(i, 1) then c.x - h else c.x + h,
         if HasBit(i, 2) then c.y - h else c.y + h,
         if HasBit(i, 4) then c.z - h else c.z + h)
  }

  /** The centre of child i made by `split`: a set bit picks the plus side. */
  function ChildCenter(c: Vec3, h: real, i: int): Vec3 {
    Vec3(if HasBit(i, 1) then c.x + h / 2.0 else c.x - h / 2.0,
         if HasBit(i, 2) then c.y + h / 2.0 else c.y - h / 2.0,
         if HasBit(i, 4) then c.z + h / 2.0 else c.z - h / 2.0)
  }

  /** The eight corners listed by `place`, x varying slowest. */
  function PlaceCorners(c: Vec3, h: real): (r: seq<Vec3>)
    ensures |r| == 8
  {
    [Vec3(c.x - h, c.y - h, c.z - h),
     Vec3(c.x - h, c.y - h, c.z + h),
     Vec3(c.x - h, c.y + h, c.z - h),
     Vec3(c.x - h, c.y + h, c.z + h),
     Vec3(c.x + h, c.y - h, c.z - h),
     Vec3(c.x + h, c.y - h, c.z + h),
     Vec3(c.x + h, c.y + h, c.z - h),
     Vec3(c.x + h, c.y + h, c.z + h)]
  }

  /** The twelve cube edges as pairs of indices into PlaceCorners: four along
      x, four along y, four along z, the lower corner first. */
  const EdgeTable: seq<(int, int)> :=
    [(0, 4), (1, 5), (2, 6), (3, 7),
     (0, 2), (1, 3), (4, 6), (5, 7),
     (0, 1), (2, 3), (4, 5), (6, 7)]

  lemma EdgeTableInRange(e: int)
    requires 0 <= e < 12
    ensures 0 <= EdgeTable[e].0 < 8 && 0 <= EdgeTable[e].1 < 8
  {
  }

  /** Both corner orders name the same eight points: place corner i is
      sample corner SampleIndex[i]. */
  const SampleIndex: seq<int> := [7, 3, 5, 1, 6, 2, 4, 0]

  lemma CornerOrdersAgree(c: Vec3, h: real)
    ensures forall i :: 0 <= i < 8 ==> PlaceCorners(c, h)[i] == SampleCorner(c, h, SampleIndex[i])
  {
  }

  /** Each child cube of a cube with h >= 0 lies inside it. */
  lemma ChildInsideParent(c: Vec3, h: real, i: int)
    requires h >= 0.0
    ensures var cc := ChildCenter(c, h, i);
      c.x - h <= cc.x - h / 2.0 && cc.x + h / 2.0 <= c.x + h &&
      c.y - h <= cc.y - h / 2.0 && cc.y + h / 2.0 <= c.y + h &&
      c.z - h <= cc.z - h / 2.0 && cc.z + h / 2.0 <= c.z + h
  {
  }

  /** The eight children of a cube with h != 0 have pairwise distinct centres. */
  lemma ChildCentersDistinct(c: Vec3, h: real, i: int, j: int)
    requires h != 0.0 && 0 <= i < 8 && 0 <= j < 8 && i != j
    ensures ChildCenter(c, h, i) != ChildCenter(c, h, j)
  {
  }

  // ---------------------------------------------------------------------
  // Homogeneity
  // ---------------------------------------------------------------------

  /** Corner k of the cube has a value whose product with the centre value is positive. */
  predicate Agrees(f: Field, c: Vec3, h: real, k: int) {
    Eval(f, SampleCorner(c, h, k)) * Eval(f, c) > 0.0
  }

  /** `homogeneous`: a generator is present and every corner agrees with the centre. */
  predicate IsHomogeneous(gen: Option<Field>, c: Vec3, h: real) {
    gen.Some? && forall k :: 0 <= k < 8 ==> Agrees(gen.value, c, h, k)
  }

  /** Number of agreeing corners among the first n. */
  function AgreeCount(f: Field, c: Vec3, h: real, n: nat): nat {
    if n == 0 then 0 else AgreeCount(f, c, h, n - 1) + (if Agrees(f, c, h, n - 1) then 1 else 0)
  }

  /** The count reaches n exactly when all of the first n corners agree. */
  lemma {:induction false} AgreeCountFull(f: Field, c: Vec3, h: real, n: nat)
    ensures AgreeCount(f, c, h, n) <= n
    ensures AgreeCount(f, c, h, n) == n <==> forall k :: 0 <= k < n ==> Agrees(f, c, h, k)
  {
    if n > 0 {
      AgreeCountFull(f, c, h, n - 1);
    }
  }

  lemma SignOfProduct(a: real, b: real)
    ensures a * b > 0.0 <==> (a > 0.0 && b > 0.0) || (a < 0.0 && b < 0.0)
  {
    if a > 0.0 && b > 0.0 {
    } else if a < 0.0 && b < 0.0 {
      calc { a * b; (0.0 - a) * (0.0 - b); > 0.0; }
    } else if a >= 0.0 && b <= 0.0 {
      calc { a * b; <= 0.0; }
    } else {
      calc { a * b; (0.0 - a) * (0.0 - b); <= 0.0; }
    }
  }

  /** Homogeneous means: all eight corners strictly share the centre's sign. */
  lemma HomogeneousIffSameSign(f: Field, c: Vec3, h: real)
    ensures IsHomogeneous(Some(f), c, h) <==>
      (Eval(f, c) > 0.0 && forall k :: 0 <= k < 8 ==> Eval(f, SampleCorner(c, h, k)) > 0.0) ||
      (Eval(f, c) < 0.0 && forall k :: 0 <= k < 8 ==> Eval(f, SampleCorner(c, h, k)) < 0.0)
  {
    var v := Eval(f, c);
    if IsHomogeneous(Some(f), c, h) {
      assert Agrees(f, c, h, 0);
      SignOfProduct(Eval(f, SampleCorner(c, h, 0)), v);
      forall k | 0 <= k < 8 ensures v > 0.0 ==> Eval(f, SampleCorner(c, h, k)) > 0.0
        ensures v < 0.0 ==> Eval(f, SampleCorner(c, h, k)) < 0.0
      {
        assert Agrees(f, c, h, k);
        SignOfProduct(Eval(f, SampleCorner(c, h, k)), v);
      }
    } else {
      assert (v > 0.0 || v < 0.0) ==> exists k :: 0 <= k < 8 && !Agrees(f, c, h, k);
      if v > 0.0 || v < 0.0 {
        var k :| 0 <= k < 8 && !Agrees(f, c, h, k);
        SignOfProduct(Eval(f, SampleCorner(c, h, k)), v);
      }
    }
  }

  /** A field that vanishes at the centre never makes a cell homogeneous,
      and neither does a missing generator. */
  lemma ZeroCentreNotHomogeneous(gen: Option<Field>, c: Vec3, h: real)
    requires gen.None? || Eval(gen.value, c) == 0.0
    ensures !IsHomogeneous(gen, c, h)
  {
    if gen.Some? {
      assert !Agrees(gen.value, c, h, 0);
    }
  }

  // ---------------------------------------------------------------------
  // The refinement the recursive split computes, as a pure shape tree
  // ---------------------------------------------------------------------

  /** A cell's geometry and its children: none for a leaf, eight otherwise. */
  datatype Shape = Shape(center: Vec3, halfsize: real, kids: seq<Shape>)

  /** A measure that halving h strictly decreases while h > min. */
  function Measure(h: real, min: real): nat
    requires min > 0.0
  {
    if h <= min then 0 else (h / min).Floor
  }

  lemma MeasureDecreases(h: real, min: real)
    requires h > min > 0.0
    ensures Measure(h / 2.0, min) < Measure(h, min)
  {
    var q := h / min;
    assert q > 1.0 by {
      assert q * min == h;
    }
    assert (h / 2.0) / min == q / 2.0;
    if h / 2.0 > min {
      assert (q / 2.0).Floor as real <= q / 2.0;
      assert (q / 2.0).Floor < q.Floor;
    }
  }

  /** `recursiveSplit` as a value: stop when h <= min or the cell is
      homogeneous, otherwise split into eight children of half size. */
  function Build(gen: Option<Field>, c: Vec3, h: real, min: real): Shape
    requires min > 0.0
    decreases Measure(h, min), 1
  {
    if h <= min || IsHomogeneous(gen, c, h) then Shape(c, h, [])
    else Shape(c, h, BuildKids(gen, c, h, min, 8))
  }

  /** The refinements of the first n octants of a cell that is split. */
  function BuildKids(gen: Option<Field>, c: Vec3, h: real, min: real, n: nat): (r: seq<Shape>)
    requires min > 0.0 && h > min && n <= 8
    ensures |r| == n
    decreases Measure(h, min), 0, n
  {
    if n == 0 then []
    else
      MeasureDecreases(h, min);
      BuildKids(gen, c, h, min, n - 1) + [Build(gen, ChildCenter(c, h, n - 1), h / 2.0, min)]
  }

  /** Entry k of BuildKids is the refinement of octant k. */
  lemma {:induction false} BuildKidsAt(gen: Option<Field>, c: Vec3, h: real, min: real, n: nat)
    requires min > 0.0 && h > min && n <= 8
    ensures forall k :: 0 <= k < n ==> BuildKids(gen, c, h, min, n)[k] == Build(gen, ChildCenter(c, h, k), h / 2.0, min)
  {
    if n > 0 {
      BuildKidsAt(gen, c, h, min, n - 1);
    }
  }

  /** The shape invariants after refinement: leaves have no children and are
      either at most `min` in size or homogeneous; internal cells have eight
      children of half size at the child centres, are larger than `min` and
      not homogeneous. */
  predicate Refined(gen: Option<Field>, s: Shape, min: real) {
    if |s.kids| == 0 then s.halfsize <= min || IsHomogeneous(gen, s.center, s.halfsize)
    else
      |s.kids| == 8 && s.halfsize > min && !IsHomogeneous(gen, s.center, s.halfsize) &&
      forall i :: 0 <= i < 8 ==>
        s.kids[i].center == ChildCenter(s.center, s.halfsize, i) &&
        s.kids[i].halfsize == s.halfsize / 2.0 &&
        Refined(gen, s.kids[i], min)
  }

  lemma {:induction false} BuildIsRefined(gen: Option<Field>, c: Vec3, h: real, min: real)
    requires min > 0.0
    ensures Build(gen, c, h, min).center == c && Build(gen, c, h, min).halfsize == h
    ensures Refined(gen, Build(gen, c, h, min), min)
    decreases Measure(h, min)
  {
    if !(h <= min || IsHomogeneous(gen, c, h)) {
      MeasureDecreases(h, min);
      BuildKidsAt(gen, c, h, min, 8);
      forall i | 0 <= i < 8 {
        BuildIsRefined(gen, ChildCenter(c, h, i), h / 2.0, min);
      }
    }
  }

  /** Conversely the refined shape of a cell is unique: it is what Build gives. */
  lemma {:induction false} RefinedIsBuild(gen: Option<Field>, s: Shape, min: real)
    requires min > 0.0 && Refined(gen, s, min)
    ensures s == Build(gen, s.center, s.halfsize, min)
  {
    if |s.kids| > 0 {
      MeasureDecreases(s.halfsize, min);
      forall i | 0 <= i < 8 ensures s.kids[i] == Build(gen, ChildCenter(s.center, s.halfsize, i), s.halfsize / 2.0, min) {
        RefinedIsBuild(gen, s.kids[i], min);
      }
      BuildOfSplit(gen, s.center, s.halfsize, min, s.kids);
    }
  }

  /** A split cell's shape is its eight octants' refinements, in child order. */
  lemma BuildOfSplit(gen: Option<Field>, c: Vec3, h: real, min: real, kids: seq<Shape>)
    requires min > 0.0 && h > min && !IsHomogeneous(gen, c, h) && |kids| == 8
    requires forall i :: 0 <= i < 8 ==> kids[i] == Build(gen, ChildCenter(c, h, i), h / 2.0, min)
    ensures Build(gen, c, h, min) == Shape(c, h, kids)
  {
    BuildKidsAt(gen, c, h, min, 8);
    assert BuildKids(gen, c, h, min, 8) == kids;
  }

  /** Number of halvings before h is at most min. */
  function Levels(h: real, min: real): nat
    requires min > 0.0
    decreases Measure(h, min)
  {
    if h <= min then 0 else MeasureDecreases(h, min); 1 + Levels(h / 2.0, min)
  }

  function Pow2(k: nat): real {
    if k == 0 then 1.0 else 2.0 * Pow2(k - 1)
  }

  lemma {:induction false} Pow2Positive(k: nat)
    ensures Pow2(k) > 0.0
  {
    if k > 0 {
      Pow2Positive(k - 1);
    }
  }

  /** Levels(h, min) is ceil(log2(h / min)) for h > min: the least k with
      h <= min * 2^k. */
  lemma {:induction false} LevelsIsCeilLog2(h: real, min: real)
    requires min > 0.0
    ensures h <= min * Pow2(Levels(h, min))
    ensures Levels(h, min) > 0 ==> h > min * Pow2(Levels(h, min) - 1)
    decreases Measure(h, min)
  {
    if h > min {
      MeasureDecreases(h, min);
      var k := Levels(h / 2.0, min);
      LevelsIsCeilLog2(h / 2.0, min);
      calc {
        h;
        2.0 * (h / 2.0);
      <= 2.0 * (min * Pow2(k));
        min * (2.0 * Pow2(k));
        min * Pow2(k + 1);
      }
      if k > 0 {
        calc {
          h;
          2.0 * (h / 2.0);
        > 2.0 * (min * Pow2(k - 1));
          min * (2.0 * Pow2(k - 1));
          min * Pow2(k);
        }
      } else {
        assert min * Pow2(0) == min;
      }
    }
  }

  /** No path of the shape has more than d internal cells. */
  predicate DepthAtMost(s: Shape, d: nat) {
    forall i :: 0 <= i < |s.kids| ==> d > 0 && DepthAtMost(s.kids[i], d - 1)
  }

  /** The refinement of a cube of size h stops within Levels(h, min) levels. */
  lemma {:induction false} BuildDepth(gen: Option<Field>, c: Vec3, h: real, min: real)
    requires min > 0.0
    ensures DepthAtMost(Build(gen, c, h, min), Levels(h, min))
    decreases Measure(h, min)
  {
    if !(h <= min || IsHomogeneous(gen, c, h)) {
      MeasureDecreases(h, min);
      BuildKidsAt(gen, c, h, min, 8);
      forall i | 0 <= i < 8 {
        BuildDepth(gen, ChildCenter(c, h, i), h / 2.0, min);
      }
    }
  }

  /** A field with a constant non-zero value gives one leaf. */
  lemma ConstantFieldIsOneLeaf(f: Field, v: real, c: Vec3, h: real, min: real)
    requires min > 0.0 && v != 0.0
    requires forall a, b, d :: f(a, b, d) == v
    ensures Build(Some(f), c, h, min) == Shape(c, h, [])
  {
    PositiveSquare(v);
    forall k | 0 <= k < 8 ensures Agrees(f, c, h, k) {
      calc { Eval(f, SampleCorner(c, h, k)) * Eval(f, c); v * v; > 0.0; }
    }
  }

  // ---------------------------------------------------------------------
  // Edges, crossings, constraints and edge keys of a leaf
  // ---------------------------------------------------------------------

  /** The key `{p1, p2}` under which a cell is registered for an edge. */
  datatype EdgeKey = EdgeKey(p1: Vec3, p2: Vec3)

  /** A crossing point with the field's normal there. */
  datatype Constraint = Constraint(point: Vec3, normal: Vec3)

  function EdgeStart(c: Vec3, h: real, e: int): Vec3
    requires 0 <= e < 12
  {
    PlaceCorners(c, h)[EdgeTable[e].0]
  }

  function EdgeEnd(c: Vec3, h: real, e: int): Vec3
    requires 0 <= e < 12
  {
    PlaceCorners(c, h)[EdgeTable[e].1]
  }

  function KeyAt(c: Vec3, h: real, e: int): EdgeKey
    requires 0 <= e < 12
  {
    EdgeKey(EdgeStart(c, h, e), EdgeEnd(c, h, e))
  }

  /** The field has strictly opposite signs at the two ends of edge e. */
  predicate Crosses(f: Field, c: Vec3, h: real, e: int)
    requires 0 <= e < 12
  {
    Eval(f, EdgeStart(c, h, e)) * Eval(f, EdgeEnd(c, h, e)) < 0.0
  }

  lemma DistinctWhenOpposite(v1: real, v2: real)
    requires v1 * v2 < 0.0
    ensures v1 != v2
  {
    OppositeSigns(v1, v2);
  }

  /** The constraint recorded for a crossing edge. */
  function EdgeConstraint(f: Field, grad: Vec3 -> Vec3, c: Vec3, h: real, e: int): Constraint
    requires 0 <= e < 12 && Crosses(f, c, h, e)
  {
    var p1 := EdgeStart(c, h, e);
    var p2 := EdgeEnd(c, h, e);
    DistinctWhenOpposite(Eval(f, p1), Eval(f, p2));
    var p := Intersection(p1, p2, Eval(f, p1), Eval(f, p2));
    Constraint(p, grad(p))
  }

  /** Keys of the crossing edges among the first n table edges, in table order. */
  function CrossingKeys(f: Field, c: Vec3, h: real, n: nat): seq<EdgeKey>
    requires n <= 12
  {
    if n == 0 then []
    else CrossingKeys(f, c, h, n - 1) + (if Crosses(f, c, h, n - 1) then [KeyAt(c, h, n - 1)] else [])
  }

  /** Constraints of the crossing edges among the first n table edges. */
  function Constraints(f: Field, grad: Vec3 -> Vec3, c: Vec3, h: real, n: nat): seq<Constraint>
    requires n <= 12
  {
    if n == 0 then []
    else
      Constraints(f, grad, c, h, n - 1) +
      (if Crosses(f, c, h, n - 1) then [EdgeConstraint(f, grad, c, h, n - 1)] else [])
  }

  /** One constraint per crossing key, and a key is listed exactly when some
      crossing edge has it. */
  lemma {:induction false} CrossingKeysSpec(f: Field, grad: Vec3 -> Vec3, c: Vec3, h: real, n: nat)
    requires n <= 12
    ensures |Constraints(f, grad, c, h, n)| == |CrossingKeys(f, c, h, n)|
    ensures forall k :: k in CrossingKeys(f, c, h, n) <==> exists e :: 0 <= e < n && Crosses(f, c, h, e) && KeyAt(c, h, e) == k
  {
    if n > 0 {
      CrossingKeysSpec(f, grad, c, h, n - 1);
    }
  }

  /** Each constraint point lies strictly inside its edge, coordinate by coordinate. */
  lemma ConstraintOnEdge(f: Field, grad: Vec3 -> Vec3, c: Vec3, h: real, e: int)
    requires 0 <= e < 12 && Crosses(f, c, h, e)
    ensures var p := EdgeConstraint(f, grad, c, h, e).point;
      var a := EdgeStart(c, h, e); var b := EdgeEnd(c, h, e);
      Between(a.x, p.x, b.x) && Between(a.y, p.y, b.y) && Between(a.z, p.z, b.z)
  {
  }

  /** A degenerate cell of size zero has no crossing edge. */
  lemma {:induction false} ZeroSizeNoCrossings(f: Field, c: Vec3, n: nat)
    requires n <= 12
    ensures CrossingKeys(f, c, 0.0, n) == []
  {
    if n > 0 {
      ZeroSizeNoCrossings(f, c, n - 1);
      var v := Eval(f, c);
      assert EdgeStart(c, 0.0, n - 1) == c == EdgeEnd(c, 0.0, n - 1);
      if v != 0.0 {
        PositiveSquare(v);
      }
    }
  }

  /** A homogeneous cell has no crossing edge, so its check in `place` only
      saves work. */
  lemma {:induction false} HomogeneousNoCrossings(f: Field, c: Vec3, h: real, n: nat)
    requires n <= 12 && IsHomogeneous(Some(f), c, h)
    ensures CrossingKeys(f, c, h, n) == []
  {
    if n > 0 {
      HomogeneousNoCrossings(f, c, h, n - 1);
      HomogeneousEdgeNotCrossing(f, c, h, n - 1);
    }
  }

  lemma HomogeneousEdgeNotCrossing(f: Field, c: Vec3, h: real, e: int)
    requires 0 <= e < 12 && IsHomogeneous(Some(f), c, h)
    ensures !Crosses(f, c, h, e)
  {
    CornerOrdersAgree(c, h);
    var a := SampleIndex[EdgeTable[e].0];
    var b := SampleIndex[EdgeTable[e].1];
    assert 0 <= a < 8 && 0 <= b < 8;
    assert EdgeStart(c, h, e) == SampleCorner(c, h, a);
    assert EdgeEnd(c, h, e) == SampleCorner(c, h, b);
    assert Agrees(f, c, h, a) && Agrees(f, c, h, b);
    SameSignAsCentre(Eval(f, SampleCorner(c, h, a)), Eval(f, SampleCorner(c, h, b)), Eval(f, c));
  }

  lemma SameSignAsCentre(va: real, vb: real, v: real)
    requires va * v > 0.0 && vb * v > 0.0
    ensures !(va * vb < 0.0)
  {
    SignOfProduct(va, v);
    SignOfProduct(vb, v);
    SignOfProduct(va, vb);
  }

  /** For h > 0 an edge's first corner is below its second on exactly one axis
      and equal on the others. */
  predicate AxisOrdered(a: Vec3, b: Vec3) {
    (a.x < b.x && a.y == b.y && a.z == b.z) ||
    (a.x == b.x && a.y < b.y && a.z == b.z) ||
    (a.x == b.x && a.y == b.y && a.z < b.z)
  }

  lemma EdgeKeysOrdered(c: Vec3, h: real, e: int)
    requires h > 0.0 && 0 <= e < 12
    ensures AxisOrdered(KeyAt(c, h, e).p1, KeyAt(c, h, e).p2)
  {
  }

  /** Two cells that share a segment as an edge (so of equal size) register
      it under the same key, whichever way each sees it. */
  lemma SharedEdgeSameKey(c1: Vec3, h1: real, e1: int, c2: Vec3, h2: real, e2: int)
    requires h1 > 0.0 && h2 > 0.0 && 0 <= e1 < 12 && 0 <= e2 < 12
    requires {EdgeStart(c1, h1, e1), EdgeEnd(c1, h1, e1)} == {EdgeStart(c2, h2, e2), EdgeEnd(c2, h2, e2)}
    ensures KeyAt(c1, h1, e1) == KeyAt(c2, h2, e2)
  {
    EdgeKeysOrdered(c1, h1, e1);
    EdgeKeysOrdered(c2, h2, e2);
    var a1, b1 := EdgeStart(c1, h1, e1), EdgeEnd(c1, h1, e1);
    var a2, b2 := EdgeStart(c2, h2, e2), EdgeEnd(c2, h2, e2);
    assert a1 in {a2, b2};
  }

  /** A key spans its edge: the second point is the first moved by 2h
      along exactly one axis. */
  lemma KeySpan(c: Vec3, h: real, e: int)
    requires 0 <= e < 12
    ensures var d := Sub(KeyAt(c, h, e).p2, KeyAt(c, h, e).p1);
      d == Vec3(2.0 * h, 0.0, 0.0) || d == Vec3(0.0, 2.0 * h, 0.0) || d == Vec3(0.0, 0.0, 2.0 * h)
  {
  }

  /** Cells of different sizes never register an edge under the same key, so
      no list in `cell_edge` joins a cell with a neighbour of another size. */
  lemma SizesApartKeysApart(c1: Vec3, h1: real, e1: int, c2: Vec3, h2: real, e2: int)
    requires h1 != h2 && 0 <= e1 < 12 && 0 <= e2 < 12
    ensures KeyAt(c1, h1, e1) != KeyAt(c2, h2, e2)
  {
    KeySpan(c1, h1, e1);
    KeySpan(c2, h2, e2);
  }

  /** The twelve edge keys of a cell with h != 0 are pairwise distinct. */
  lemma KeysDistinct(c: Vec3, h: real, e1: int, e2: int)
    requires h != 0.0 && 0 <= e1 < 12 && 0 <= e2 < 12 && e1 != e2
    ensures KeyAt(c, h, e1) != KeyAt(c, h, e2)
  {
  }

  predicate NoDuplicates<T(==)>(s: seq<T>) {
    forall i, j :: 0 <= i < j < |s| ==> s[i] != s[j]
  }

  lemma {:induction false} CrossingKeysNoDuplicates(f: Field, c: Vec3, h: real, n: nat)
    requires h != 0.0 && n <= 12
    ensures NoDuplicates(CrossingKeys(f, c, h, n))
    ensures forall k :: k in CrossingKeys(f, c, h, n) ==> exists e :: 0 <= e < n && KeyAt(c, h, e) == k
  {
    if n > 0 {
      CrossingKeysNoDuplicates(f, c, h, n - 1);
      var prev := CrossingKeys(f, c, h, n - 1);
      if Crosses(f, c, h, n - 1) {
        forall i | 0 <= i < |prev| ensures prev[i] != KeyAt(c, h, n - 1) {
          assert prev[i] in prev;
          var e :| 0 <= e < n - 1 && KeyAt(c, h, e) == prev[i];
          KeysDistinct(c, h, e, n - 1);
        }
      }
    }
  }

  // ---------------------------------------------------------------------
  // The registries
  // ---------------------------------------------------------------------

  /** `m[k]` with operator[]'s default of an empty list. */
  function Get<V>(m: map<EdgeKey, seq<V>>, k: EdgeKey): seq<V> {
    if k in m then m[k] else []
  }

  /** `cell_edge[key].push_back(cell)` for each key in order. */
  function Register<V>(m: map<EdgeKey, seq<V>>, keys: seq<EdgeKey>, cell: V): map<EdgeKey, seq<V>> {
    if |keys| == 0 then m
    else
      var m' := Register(m, keys[..|keys| - 1], cell);
      m'[keys[|keys| - 1] := Get(m', keys[|keys| - 1]) + [cell]]
  }

  lemma RegisterOneMore<V>(m: map<EdgeKey, seq<V>>, keys: seq<EdgeKey>, k: EdgeKey, cell: V)
    ensures Register(m, keys + [k], cell) == Register(m, keys, cell)[k := Get(Register(m, keys, cell), k) + [cell]]
  {
    assert (keys + [k])[..|keys|] == keys;
  }

  function Count<T(==)>(s: seq<T>, x: T): nat {
    if |s| == 0 then 0 else Count(s[..|s| - 1], x) + (if s[|s| - 1] == x then 1 else 0)
  }

  function Copies<V>(v: V, n: nat): (r: seq<V>)
    ensures |r| == n && forall i :: 0 <= i < n ==> r[i] == v
  {
    if n == 0 then [] else Copies(v, n - 1) + [v]
  }

  /** Registering appends the cell once per occurrence of the key, and adds
      exactly the listed keys to the map. */
  lemma {:induction false} RegisterSpec<V>(m: map<EdgeKey, seq<V>>, keys: seq<EdgeKey>, cell: V, k: EdgeKey)
    ensures Get(Register(m, keys, cell), k) == Get(m, k) + Copies(cell, Count(keys, k))
    ensures k in Register(m, keys, cell) <==> k in m || k in keys
  {
    if |keys| > 0 {
      var ks := keys[..|keys| - 1];
      RegisterSpec(m, ks, cell, k);
      assert keys == ks + [keys[|keys| - 1]];
      if keys[|keys| - 1] == k {
        assert Copies(cell, Count(keys, k)) == Copies(cell, Count(ks, k)) + [cell];
      }
    }
  }

  lemma {:induction false} CountNoDuplicates<T>(s: seq<T>, x: T)
    requires NoDuplicates(s)
    ensures Count(s, x) == if x in s then 1 else 0
  {
    if |s| > 0 {
      var t := s[..|s| - 1];
      assert NoDuplicates(t);
      CountNoDuplicates(t, x);
      assert s == t + [s[|s| - 1]];
      if s[|s| - 1] == x {
        assert x !in t;
      }
    }
  }

  /** `place` on a non-degenerate leaf appends the cell exactly once under each
      crossing edge's key, and leaves every other key's list as it was. */
  lemma LeafRegistersOnce<V>(m: map<EdgeKey, seq<V>>, f: Field, c: Vec3, h: real, cell: V, k: EdgeKey)
    ensures Get(Register(m, CrossingKeys(f, c, h, 12), cell), k) ==
      Get(m, k) + (if k in CrossingKeys(f, c, h, 12) then [cell] else [])
  {
    var keys := CrossingKeys(f, c, h, 12);
    if h == 0.0 {
      ZeroSizeNoCrossings(f, c, 12);
    } else {
      CrossingKeysNoDuplicates(f, c, h, 12);
      CountNoDuplicates(keys, k);
      RegisterSpec(m, keys, cell, k);
    }
  }

  // ---------------------------------------------------------------------
  // Registrations over many leaves, and the vertex a leaf receives
  // ---------------------------------------------------------------------

  /** The keys `place` registers a leaf under: none when the leaf is
      homogeneous, otherwise its crossing edges' keys in table order. */
  function LeafKeys(f: Field, cell: Cell): seq<EdgeKey> {
    if IsHomogeneous(Some(f), cell.Center(), cell.halfsize) then []
    else CrossingKeys(f, cell.Center(), cell.halfsize, 12)
  }

  /** The `cell_edge` map after `place` has visited the given leaves in order. */
  function PlaceAll(m: map<EdgeKey, seq<Cell>>, f: Field, leaves: seq<Cell>): map<EdgeKey, seq<Cell>> {
    if |leaves| == 0 then m
    else
      var l := leaves[|leaves| - 1];
      Register(PlaceAll(m, f, leaves[..|leaves| - 1]), LeafKeys(f, l), l)
  }

  lemma {:induction false} PlaceAllAppend(m: map<EdgeKey, seq<Cell>>, f: Field, a: seq<Cell>, b: seq<Cell>)
    ensures PlaceAll(m, f, a + b) == PlaceAll(PlaceAll(m, f, a), f, b)
  {
    if |b| > 0 {
      var b' := b[..|b| - 1];
      assert (a + b)[..|a + b| - 1] == a + b';
      PlaceAllAppend(m, f, a, b');
    } else {
      assert a + b == a;
    }
  }

  /** The leaves, in visiting order, that register under key k. */
  function LeavesAt(f: Field, leaves: seq<Cell>, k: EdgeKey): seq<Cell> {
    if |leaves| == 0 then []
    else
      var l := leaves[|leaves| - 1];
      LeavesAt(f, leaves[..|leaves| - 1], k) + (if k in LeafKeys(f, l) then [l] else [])
  }

  /** One leaf's `place`: its cell is appended once under each of its keys. */
  lemma LeafStep(m: map<EdgeKey, seq<Cell>>, f: Field, l: Cell, k: EdgeKey)
    ensures Get(Register(m, LeafKeys(f, l), l), k) == Get(m, k) + (if k in LeafKeys(f, l) then [l] else [])
  {
    if !IsHomogeneous(Some(f), l.Center(), l.halfsize) {
      LeafRegistersOnce(m, f, l.Center(), l.halfsize, l, k);
    }
  }

  /** After placement the list under each key is its old list followed by
      exactly the leaves that have k as a crossing edge, once each, in order. */
  lemma {:induction false} PlaceAllGet(m: map<EdgeKey, seq<Cell>>, f: Field, leaves: seq<Cell>, k: EdgeKey)
    ensures Get(PlaceAll(m, f, leaves), k) == Get(m, k) + LeavesAt(f, leaves, k)
  {
    if |leaves| > 0 {
      var l := leaves[|leaves| - 1];
      var prev := leaves[..|leaves| - 1];
      PlaceAllGet(m, f, prev, k);
      LeafStep(PlaceAll(m, f, prev), f, l, k);
    }
  }

  /** The normals of the constraints: the rows of the least-squares matrix. */
  function Normals(cons: seq<Constraint>): (r: seq<Vec3>)
    ensures |r| == |cons| && forall i :: 0 <= i < |cons| ==> r[i] == cons[i].normal
  {
    seq(|cons|, i requires 0 <= i < |cons| => cons[i].normal)
  }

  /** Each normal dotted with its crossing point: the right-hand side. */
  function Offsets(cons: seq<Constraint>): (r: seq<real>)
    ensures |r| == |cons| && forall i :: 0 <= i < |cons| ==> r[i] == Dot(cons[i].normal, cons[i].point)
  {
    seq(|cons|, i requires 0 <= i < |cons| => Dot(cons[i].normal, cons[i].point))
  }

  /** The loop that fills the matrix and vector handed to the solver. Every
      crossing point lies on the plane of its own row. */
  method QefSystem(cons: seq<Constraint>) returns (rows: seq<Vec3>, rhs: seq<real>)
    ensures rows == Normals(cons) && rhs == Offsets(cons)
    ensures forall i, v :: 0 <= i < |cons| ==>
      Dot(rows[i], v) - rhs[i] == Dot(cons[i].normal, Sub(v, cons[i].point))
  {
    rows := [];
    rhs := [];
    var m := |cons|;
    for i := 0 to m
      invariant |rows| == i && |rhs| == i
      invariant forall k :: 0 <= k < i ==> rows[k] == cons[k].normal && rhs[k] == Dot(cons[k].normal, cons[k].point)
    {
      var n := cons[i].normal;
      var p := cons[i].point;
      rows := rows + [n];
      rhs := rhs + [n.x * p.x + n.y * p.y + n.z * p.z];
    }
    forall i, v | 0 <= i < |cons|
      ensures Dot(rows[i], v) - rhs[i] == Dot(cons[i].normal, Sub(v, cons[i].point))
    {
      PlaneResidual(cons, i, v);
    }
  }

  /** Row i of the system is the plane through crossing point i with normal
      i: for any candidate vertex v, the row's residual is the normal dotted
      with the offset of v from the crossing point, which is the term the
      least-squares solve minimises. */
  lemma PlaneResidual(cons: seq<Constraint>, i: int, v: Vec3)
    requires 0 <= i < |cons|
    ensures Dot(Normals(cons)[i], v) - Offsets(cons)[i] == Dot(cons[i].normal, Sub(v, cons[i].point))
  {
    var n, p := cons[i].normal, cons[i].point;
    assert Dot(n, Sub(v, p)) == n.x * v.x + n.y * v.y + n.z * v.z - (n.x * p.x + n.y * p.y + n.z * p.z);
  }

  /** The vertex `place` gives a leaf: none when the leaf is homogeneous or
      no edge crosses, otherwise the solver's answer for its constraints. */
  function Solved(f: Field, grad: Vec3 -> Vec3, solve: (seq<Vec3>, seq<real>) -> Vec3, c: Vec3, h: real): (r: Option<Vec3>)
    ensures r.Some? <==> !IsHomogeneous(Some(f), c, h) && |CrossingKeys(f, c, h, 12)| > 0
  {
    CrossingKeysSpec(f, grad, c, h, 12);
    if IsHomogeneous(Some(f), c, h) then None
    else
      var cons := Constraints(f, grad, c, h, 12);
      if |cons| == 0 then None else Some(solve(Normals(cons), Offsets(cons)))
  }

  /** A cell's vertex after placement, given its vertex before. */
  ghost function Placed(f: Field, grad: Vec3 -> Vec3, solve: (seq<Vec3>, seq<real>) -> Vec3, c: Cell, before: Vec3): Vec3
    reads c`isLeaf
  {
    var r := Solved(f, grad, solve, c.Center(), c.halfsize);
    if c.isLeaf && r.Some? then r.value else before
  }

  /** A leaf listed under a key by placement has that key as a crossing edge,
      so it is a non-homogeneous leaf with a solved vertex: no cell reaching
      `triangulate` is one whose vertex was left unplaced. */
  lemma {:induction false} RegisteredAreSolved(f: Field, grad: Vec3 -> Vec3, solve: (seq<Vec3>, seq<real>) -> Vec3,
                                              leaves: seq<Cell>, k: EdgeKey, l: Cell)
    requires l in LeavesAt(f, leaves, k)
    ensures l in leaves && k in LeafKeys(f, l)
    ensures Solved(f, grad, solve, l.Center(), l.halfsize).Some?
  {
    var last := leaves[|leaves| - 1];
    var prev := leaves[..|leaves| - 1];
    if l in LeavesAt(f, prev, k) {
      RegisteredAreSolved(f, grad, solve, prev, k, l);
      assert l in leaves by { assert forall x :: x in prev ==> x in leaves; }
    } else {
      assert l == last && k in LeafKeys(f, l);
    }
  }

  // ---------------------------------------------------------------------
  // The global registries
  // ---------------------------------------------------------------------

  /** The two global maps: `cell_id` from a cell's centre to the cell and
      `cell_edge` from an edge key to the cells registered under it. */
  class Session {
    var cellId: map<Vec3, Cell>
    var cellEdge: map<EdgeKey, seq<Cell>>

    constructor ()
      ensures cellId == map[] && cellEdge == map[]
    {
      cellId := map[];
      cellEdge := map[];
    }
  }

  /** `cell_id[centre] = cell` for each non-null cell, in order. */
  function RegisterCentres(m: map<Vec3, Cell>, cells: seq<Cell?>): map<Vec3, Cell> {
    if |cells| == 0 then m
    else
      var m' := RegisterCentres(m, cells[..|cells| - 1]);
      var c := cells[|cells| - 1];
      if c == null then m' else m'[c.Center() := c]
  }

  /** After registering, a centre maps to a listed cell with that centre
      (the last one, by RegisterCentresLast), or keeps its old entry when no
      listed cell has that centre. */
  lemma {:induction false} RegisterCentresSpec(m: map<Vec3, Cell>, cells: seq<Cell?>, p: Vec3)
    ensures p in RegisterCentres(m, cells) ==>
      (p in m && RegisterCentres(m, cells)[p] == m[p]) ||
      (RegisterCentres(m, cells)[p] in cells && RegisterCentres(m, cells)[p].Center() == p)
    ensures (forall c :: c in cells && c != null ==> c.Center() != p) ==>
      (p in RegisterCentres(m, cells) <==> p in m) &&
      (p in m ==> RegisterCentres(m, cells)[p] == m[p])
    ensures (exists c :: c in cells && c != null && c.Center() == p) ==> p in RegisterCentres(m, cells)
  {
    if |cells| > 0 {
      var init := cells[..|cells| - 1];
      RegisterCentresSpec(m, init, p);
      assert cells == init + [cells[|cells| - 1]];
    }
  }

  /** Each registration overwrites the one before: the last listed cell with
      a given centre is the one the map keeps for it. */
  lemma {:induction false} RegisterCentresLast(m: map<Vec3, Cell>, cells: seq<Cell?>, i: nat)
    requires i < |cells| && cells[i] != null
    requires forall j :: i < j < |cells| && cells[j] != null ==> cells[j].Center() != cells[i].Center()
    ensures cells[i].Center() in RegisterCentres(m, cells)
    ensures RegisterCentres(m, cells)[cells[i].Center()] == cells[i]
  {
    var n := |cells|;
    if i < n - 1 {
      var init := cells[..n - 1];
      assert init[i] == cells[i];
      RegisterCentresLast(m, init, i);
    }
  }

  /** Registering a concatenation registers the first part, then the second. */
  lemma {:induction false} RegisterCentresAppend(m: map<Vec3, Cell>, a: seq<Cell?>, b: seq<Cell?>)
    ensures RegisterCentres(m, a + b) == RegisterCentres(RegisterCentres(m, a), b)
  {
    if |b| > 0 {
      assert (a + b)[..|a + b| - 1] == a + b[..|b| - 1];
      RegisterCentresAppend(m, a, b[..|b| - 1]);
    } else {
      assert a + b == a;
    }
  }

  function Concat<T>(parts: seq<seq<T>>): seq<T> {
    if |parts| == 0 then [] else Concat(parts[..|parts| - 1]) + parts[|parts| - 1]
  }

  lemma {:induction false} EmptyConcat<T>(parts: seq<seq<T>>)
    requires forall k :: 0 <= k < |parts| ==> parts[k] == []
    ensures Concat(parts) == []
  {
    if |parts| > 0 {
      EmptyConcat(parts[..|parts| - 1]);
    }
  }

  /** The registries and the visited leaves after each slot of the child
      loop of `place`: ms[k] and dones[k] after the first k slots. */
  predicate Steps(f: Field, ms: seq<map<EdgeKey, seq<Cell>>>, parts: seq<seq<Cell>>, dones: seq<seq<Cell>>) {
    |parts| == 8 && |ms| == 9 && |dones| == 9 && dones[0] == [] &&
    forall k :: 0 <= k < 8 ==> ms[k + 1] == PlaceAll(ms[k], f, parts[k]) && dones[k + 1] == dones[k] + parts[k]
  }

  /** Placement one slot list at a time, from m. */
  function Progression(m: map<EdgeKey, seq<Cell>>, f: Field, parts: seq<seq<Cell>>): (ms: seq<map<EdgeKey, seq<Cell>>>)
    ensures |ms| == |parts| + 1 && ms[0] == m
    ensures forall k :: 0 <= k < |parts| ==> ms[k + 1] == PlaceAll(ms[k], f, parts[k])
  {
    Scan(m, (mm: map<EdgeKey, seq<Cell>>, part: seq<Cell>) => PlaceAll(mm, f, part), parts)
  }

  /** The successive states of applying `step` to each part in turn. */
  function Scan<S, P>(m: S, step: (S, P) -> S, parts: seq<P>): (ms: seq<S>)
    ensures |ms| == |parts| + 1 && ms[0] == m
    ensures forall k :: 0 <= k < |parts| ==> ms[k + 1] == step(ms[k], parts[k])
  {
    if |parts| == 0 then [m]
    else
      var q := parts[..|parts| - 1];
      var p := Scan(m, step, q);
      assert forall k :: 0 <= k < |q| ==> q[k] == parts[k];
      p + [step(p[|q|], parts[|q|])]
  }

  /** Placing the lists one at a time is placing their concatenation. */
  lemma {:induction false} ProgressionEnd(m: map<EdgeKey, seq<Cell>>, f: Field, parts: seq<seq<Cell>>)
    ensures Progression(m, f, parts)[|parts|] == PlaceAll(m, f, Concat(parts))
  {
    if |parts| > 0 {
      var q := parts[..|parts| - 1];
      ProgressionEnd(m, f, q);
      PlaceAllAppend(m, f, Concat(q), parts[|parts| - 1]);
    }
  }

  /** The concatenations of the prefixes of a list of lists. */
  function Prefixes<T>(parts: seq<seq<T>>): (r: seq<seq<T>>)
    ensures |r| == |parts| + 1 && r[0] == []
    ensures forall k :: 0 <= k < |parts| ==> r[k + 1] == r[k] + parts[k]
  {
    Scan([], (done: seq<T>, part: seq<T>) => done + part, parts)
  }

  lemma {:induction false} PrefixesEnd<T>(parts: seq<seq<T>>)
    ensures Prefixes(parts)[|parts|] == Concat(parts)
  {
    if |parts| > 0 {
      PrefixesEnd(parts[..|parts| - 1]);
    }
  }

  /** The first n listed cells are refined to the wanted shapes, with
      pairwise disjoint footprints inside `cells` and `arrays`. */
  ghost predicate AllCompleted(kids: seq<Cell?>, min: real, parts: seq<seq<Cell?>>, n: nat,
                               cells: set<Cell>, arrays: set<array<Cell?>>)
    reads cells, arrays
    requires n <= |kids| && n <= |parts|
  {
    (forall k :: 0 <= k < n ==>
      kids[k] in cells && kids[k].Repr <= cells && kids[k].Arrays <= arrays &&
      Completed(kids[k], min, parts[k])) &&
    (forall k, j :: 0 <= k < j < n ==>
      kids[k].Repr !! kids[j].Repr && kids[k].Arrays !! kids[j].Arrays)
  }

  /** One more refined cell, disjoint from the others, extends the prefix. */
  lemma AllCompletedGrow(kids: seq<Cell?>, min: real, parts: seq<seq<Cell?>>, n: nat,
                         cells: set<Cell>, arrays: set<array<Cell?>>, part: seq<Cell?>)
    requires n < |kids| && n == |parts|
    requires AllCompleted(kids, min, parts, n, cells, arrays)
    requires Completed(kids[n], min, part)
    requires kids[n].Repr !! cells && kids[n].Arrays !! arrays
    ensures AllCompleted(kids, min, parts + [part], n + 1, cells + kids[n].Repr, arrays + kids[n].Arrays)
  {
    var parts' := parts + [part];
    assert forall k :: 0 <= k < n ==> parts'[k] == parts[k];
  }

  /** The subtree of d is refined to the shape Build gives for its geometry and `created` lists the
      cells its refinement made. */
  ghost predicate Completed(d: Cell?, min: real, created: seq<Cell?>)
    reads d, if d == null then {} else d.Repr, if d == null then {} else d.Arrays
  {
    d != null && d.Valid() && min > 0.0 &&
    d.Abs() == Build(d.generator, d.Center(), d.halfsize, min) && d.Created() == created
  }

  // ---------------------------------------------------------------------
  // Cells
  // ---------------------------------------------------------------------

  class Cell {
    const x: real
    const y: real
    const z: real
    const halfsize: real
    const generator: Option<Field>
    var isLeaf: bool
    const children: array<Cell?>
    var vertex: Vec3

    /** The cells of this subtree and their child arrays. */
    ghost var Repr: set<Cell>
    ghost var Arrays: set<array<Cell?>>

    function Center(): Vec3 {
      Vec3(x, y, z)
    }

    /** A leaf has eight null children; an internal cell has eight children
        with disjoint subtrees, centred at the octant centres with half the size
        and the same generator. */
    ghost predicate Valid()
      reads this`Repr, this`Arrays, Repr`isLeaf, Repr`Repr, Repr`Arrays, Arrays
      decreases Repr
    {
      this in Repr && children in Arrays && children.Length == 8 &&
      (isLeaf ==> forall i :: 0 <= i < 8 ==> children[i] == null) &&
      (!isLeaf ==>
        (forall i :: 0 <= i < 8 ==>
          children[i] != null && children[i] in Repr &&
          children[i].Repr <= Repr && children[i].Arrays <= Arrays &&
          this !in children[i].Repr && children !in children[i].Arrays &&
          children[i].Center() == ChildCenter(Center(), halfsize, i) &&
          children[i].halfsize == halfsize / 2.0 &&
          children[i].generator == generator &&
          children[i].Valid()) &&
        (forall i, j :: 0 <= i < j < 8 ==>
          children[i].Repr !! children[j].Repr && children[i].Arrays !! children[j].Arrays))
    }

    /** The subtree as a shape. */
    ghost function Abs(): Shape
      reads this`Repr, this`Arrays, Repr`isLeaf, Repr`Repr, Repr`Arrays, Arrays
      requires Valid()
      decreases Repr, 1
    {
      if isLeaf then Shape(Center(), halfsize, []) else Shape(Center(), halfsize, ChildShapes(8))
    }

    /** The shapes of the first n children. */
    ghost function ChildShapes(n: nat): (r: seq<Shape>)
      reads this`Repr, this`Arrays, Repr`isLeaf, Repr`Repr, Repr`Arrays, Arrays
      requires Valid() && !isLeaf && n <= 8
      ensures |r| == n && forall k :: 0 <= k < n ==> r[k] == children[k].Abs()
      decreases Repr, 0, n
    {
      if n == 0 then [] else ChildShapes(n - 1) + [children[n - 1].Abs()]
    }

    /** The leaves of the subtree in the order `place` visits them. */
    ghost function Leaves(): seq<Cell>
      reads this`Repr, this`Arrays, Repr`isLeaf, Repr`Repr, Repr`Arrays, Arrays
      requires Valid()
      decreases Repr, 1
    {
      if isLeaf then [this] else ChildLeaves(8)
    }

    /** The leaves under the first n children. */
    ghost function ChildLeaves(n: nat): seq<Cell>
      reads this`Repr, this`Arrays, Repr`isLeaf, Repr`Repr, Repr`Arrays, Arrays
      requires Valid() && !isLeaf && n <= 8
      decreases Repr, 0, n
    {
      if n == 0 then [] else ChildLeaves(n - 1) + children[n - 1].Leaves()
    }

    /** A leaf owning only itself and its slots. */
    ghost predicate FreshLeaf()
      reads this`Repr, this`Arrays, this`isLeaf, children
    {
      isLeaf && Repr == {this} && Arrays == {children} && children.Length == 8 &&
      forall i :: 0 <= i < 8 ==> children[i] == null
    }

    lemma LeafIsValid()
      requires FreshLeaf()
      ensures Valid() && Abs() == Shape(Center(), halfsize, []) && Leaves() == [this]
    {
    }

    /** A new leaf with eight null child slots, registered in `cell_id` under
        its centre. */
    constructor (x: real, y: real, z: real, halfsize: real, generator: Option<Field>, s: Session)
      modifies s`cellId
      ensures FreshLeaf() && vertex == Zero && fresh(children)
      ensures forall i :: 0 <= i < 8 ==> children[i] == null
      ensures this.x == x && this.y == y && this.z == z
      ensures this.halfsize == halfsize && this.generator == generator
      ensures s.cellId == old(s.cellId)[Vec3(x, y, z) := this]
    {
      this.x := x;
      this.y := y;
      this.z := z;
      this.halfsize := halfsize;
      this.generator := generator;
      isLeaf := true;
      vertex := Zero;
      children := new Cell?[8](_ => null);
      Repr := {this};
      Arrays := {children};
      new;
      Repr := {this};
      s.cellId := s.cellId[Vec3(x, y, z) := this];
    }

    /** `split`: eight new leaf children, child i in the octant its bits
        name, each of half the size and registered under its centre. */
    method Split(s: Session)
      requires children.Length == 8
      modifies this`isLeaf, this`Repr, this`Arrays, children, s`cellId
      ensures !isLeaf && NewChildren(8) && ZeroVertices(Repr - {this})
      ensures fresh(Repr - {this}) && fresh(Arrays - {children})
      ensures s.cellId == RegisterCentres(old(s.cellId), children[..])
    {
      isLeaf := false;
      MakeChildren(s);
    }

    /** The loop of `split` that fills the child slots, and the footprint it
        builds. */
    method MakeChildren(s: Session)
      requires children.Length == 8
      modifies this`Repr, this`Arrays, children, s`cellId
      ensures NewChildren(8) && ZeroVertices(Repr - {this})
      ensures fresh(Repr - {this}) && fresh(Arrays - {children})
      ensures s.cellId == RegisterCentres(old(s.cellId), children[..])
    {
      Repr := {this};
      Arrays := {children};
      for i := 0 to 8
        invariant NewChildren(i) && ZeroVertices(Repr - {this})
        invariant fresh(Repr - {this}) && fresh(Arrays - {children})
        invariant s.cellId == RegisterCentres(old(s.cellId), children[..i])
      {
        ghost var before := children[..i];
        MakeChild(i, s);
        assert children[..i + 1][..i] == children[..i] == before;
      }
      assert children[..8] == children[..];
    }

    /** One step of the loop of `split`: a new leaf in slot i. */
    method MakeChild(i: int, s: Session)
      requires 0 <= i < 8 && NewChildren(i)
      modifies this`Repr, this`Arrays, children, s`cellId
      ensures children[i] != null && fresh(children[i]) && fresh(children[i].children)
      ensures NewChildren(i + 1)
      ensures forall k :: 0 <= k < 8 && k != i ==> children[k] == old(children[k])
      ensures Repr == old(Repr) + {children[i]} && Arrays == old(Arrays) + {children[i].children}
      ensures s.cellId == old(s.cellId)[children[i].Center() := children[i]]
    {
      var c := NewLeaf(i, s);
      children[i] := c;
      Repr, Arrays := Repr + {c}, Arrays + {c.children};
    }

    /** The new leaf of the loop of `split` for octant i, registered under
        its centre. */
    method NewLeaf(i: int, s: Session) returns (c: Cell)
      requires 0 <= i < 8
      modifies s`cellId
      ensures fresh(c) && fresh(c.children) && NewChild(c, i)
      ensures s.cellId == old(s.cellId)[c.Center() := c]
    {
      var newX := if HasBit(i, 1) then x + halfsize / 2.0 else x - halfsize / 2.0;
      var newY := if HasBit(i, 2) then y + halfsize / 2.0 else y - halfsize / 2.0;
      var newZ := if HasBit(i, 4) then z + halfsize / 2.0 else z - halfsize / 2.0;
      c := new Cell(newX, newY, newZ, halfsize / 2.0, generator, s);
      c.isLeaf := true;
    }

    /** Slots 0 to n-1 hold distinct new leaves at their octant centres,
        owned by this cell; with n = 8 this is what `split` leaves behind. */
    ghost predicate NewChildren(n: nat)
      reads this`Repr, this`Arrays, children, children[..],
        set k | 0 <= k < children.Length && children[k] != null :: children[k].children
    {
      n <= 8 && this in Repr && children in Arrays && children.Length == 8 &&
      (forall k :: 0 <= k < n ==>
        children[k] != null && children[k] != this && children[k].children != children &&
        NewChild(children[k], k) && children[k] in Repr && children[k].children in Arrays) &&
      (forall k, j :: 0 <= k < j < n ==>
        children[k] != children[j] && children[k].children != children[j].children)
    }

    /** c is a new leaf fit to be child k of this cell, its vertex still
        the origin. */
    ghost predicate NewChild(c: Cell, k: int)
      reads c`Repr, c`Arrays, c`isLeaf, c`vertex, c.children
    {
      c.FreshLeaf() && c.Center() == ChildCenter(Center(), halfsize, k) &&
      c.halfsize == halfsize / 2.0 && c.generator == generator && c.vertex == Zero
    }

    /** Eight distinct new leaves at the octant centres make a valid internal cell. */
    lemma FreshLeavesValid()
      requires !isLeaf && children.Length == 8
      requires NewChildren(8)
      ensures Valid()
    {
      forall k | 0 <= k < 8 {
        children[k].LeafIsValid();
      }
    }

    /** `recursiveSplit` on a new leaf: split while larger than the minimum
        and not homogeneous, then refine each child. The subtree gets the
        shape Build computes, and `cell_id` registers the cells made, in the
        order they are made. */
    method RecursiveSplit(minHalfSize: real, s: Session)
      requires FreshLeaf() && minHalfSize > 0.0
      modifies this`isLeaf, this`Repr, this`Arrays, children, s`cellId
      ensures Valid()
      ensures Abs() == Build(generator, Center(), halfsize, minHalfSize)
      ensures s.cellId == RegisterCentres(old(s.cellId), Created())
      ensures fresh(Repr - {this}) && fresh(Arrays - {children}) && ZeroVertices(Repr - {this})
      decreases Measure(halfsize, minHalfSize), 1
    {
      if halfsize <= minHalfSize {
        LeafIsValid();
        return;
      }
      var h := Homogeneous();
      if h {
        LeafIsValid();
        return;
      }
      SplitAndRefine(minHalfSize, s);
    }

    /** The split branch of `recursiveSplit`. */
    method SplitAndRefine(minHalfSize: real, s: Session)
      requires FreshLeaf() && minHalfSize > 0.0 && halfsize > minHalfSize
      requires !IsHomogeneous(generator, Center(), halfsize)
      modifies this`isLeaf, this`Repr, this`Arrays, children, s`cellId
      ensures Valid()
      ensures Abs() == Build(generator, Center(), halfsize, minHalfSize)
      ensures s.cellId == RegisterCentres(old(s.cellId), Created())
      ensures fresh(Repr - {this}) && fresh(Arrays - {children}) && ZeroVertices(Repr - {this})
      decreases Measure(halfsize, minHalfSize), 0, 3
    {
      Split(s);
      RefineChildren(minHalfSize, s);
      RegisterCentresAppend(old(s.cellId), children[..], ChildCreated(8));
    }

    /** The loop of `recursiveSplit` over the eight new children. */
    method RefineChildren(minHalfSize: real, s: Session)
      requires !isLeaf && children.Length == 8 && minHalfSize > 0.0 && halfsize > minHalfSize
      requires !IsHomogeneous(generator, Center(), halfsize)
      requires NewChildren(8) && ZeroVertices(Repr - {this})
      modifies this`Repr, this`Arrays, (Repr - {this})`isLeaf, (Repr - {this})`Repr,
        (Repr - {this})`Arrays, Arrays - {children}, s`cellId
      ensures Valid()
      ensures Abs() == Build(generator, Center(), halfsize, minHalfSize)
      ensures s.cellId == RegisterCentres(old(s.cellId), ChildCreated(8))
      ensures fresh(Repr - old(Repr)) && fresh(Arrays - old(Arrays)) && ZeroVertices(Repr - {this})
      decreases Measure(halfsize, minHalfSize), 0, 2
    {
      ghost var kids := children[..];
      StartRefining(minHalfSize, kids);
      ghost var parts, cells, arrays := RefineEach(minHalfSize, s, kids);
      Adopt(minHalfSize, kids, parts, cells, arrays);
    }

    /** The loop itself: refine the children one by one, collecting their
        footprints in `cells` and `arrays` and what each made in `parts`. */
    method RefineEach(minHalfSize: real, s: Session, ghost kids: seq<Cell?>)
      returns (ghost parts: seq<seq<Cell?>>, ghost cells: set<Cell>, ghost arrays: set<array<Cell?>>)
      requires children.Length == 8 && kids == children[..] && halfsize > minHalfSize
      requires Refining(minHalfSize, kids, [], 0, {}, {})
      requires forall k :: 0 <= k < 8 ==> kids[k] in Repr - {this} && kids[k].children in Arrays - {children}
      requires forall k :: 0 <= k < 8 ==> kids[k].vertex == Zero
      modifies (Repr - {this})`isLeaf, (Repr - {this})`Repr, (Repr - {this})`Arrays, Arrays - {children}, s`cellId
      ensures Refining(minHalfSize, kids, parts, 8, cells, arrays)
      ensures s.cellId == RegisterCentres(old(s.cellId), Concat(parts))
      ensures fresh(cells - old(Repr)) && fresh(arrays - old(Arrays)) && ZeroVertices(cells)
      decreases Measure(halfsize, minHalfSize), 0, 1
    {
      MeasureDecreases(halfsize, minHalfSize);
      parts, cells, arrays := [], {}, {};
      for i := 0 to 8
        invariant Refining(minHalfSize, kids, parts, i, cells, arrays)
        invariant s.cellId == RegisterCentres(old(s.cellId), Concat(parts))
        invariant fresh(cells - old(Repr)) && fresh(arrays - old(Arrays)) && ZeroVertices(cells)
      {
        parts, cells, arrays := RefineChild(children[i], i, minHalfSize, s, kids, parts, cells, arrays,
                                            old(s.cellId), old(Repr), old(Arrays));
      }
    }

    /** The state of the loop of `recursiveSplit` before child i: the
        children before i are refined to their shapes inside `cells` and
        `arrays`, with `parts` listing what each refinement made, and the
        children from i on are still distinct new leaves outside them. */
    ghost predicate Refining(minHalfSize: real, kids: seq<Cell?>, parts: seq<seq<Cell?>>, i: nat,
                             cells: set<Cell>, arrays: set<array<Cell?>>)
      reads cells, arrays, kids, set k | 0 <= k < |kids| && kids[k] != null :: kids[k].children
    {
      minHalfSize > 0.0 && i <= 8 && |parts| == i && Layout(kids) &&
      this !in cells && children !in arrays &&
      AllCompleted(kids, minHalfSize, parts, i, cells, arrays) &&
      Pending(kids, i, cells, arrays)
    }

    /** The eight listed cells are distinct, with distinct slot arrays, and
        sit at the octant centres of this cell with half its size. */
    ghost predicate Layout(kids: seq<Cell?>) {
      |kids| == 8 &&
      (forall k :: 0 <= k < 8 ==>
        kids[k] != null && kids[k].Center() == ChildCenter(Center(), halfsize, k) &&
        kids[k].halfsize == halfsize / 2.0 && kids[k].generator == generator) &&
      (forall k, j :: 0 <= k < j < 8 ==> kids[k] != kids[j] && kids[k].children != kids[j].children)
    }

    /** The listed cells from i on are new leaves outside this cell and
        outside `cells` and `arrays`. */
    ghost predicate Pending(kids: seq<Cell?>, i: nat, cells: set<Cell>, arrays: set<array<Cell?>>)
      reads kids, set k | 0 <= k < |kids| && kids[k] != null :: kids[k].children
      requires Layout(kids)
    {
      forall k :: i <= k < 8 ==>
        kids[k].FreshLeaf() && kids[k] != this && kids[k].children != children &&
        kids[k] !in cells && kids[k].children !in arrays
    }

    /** Child i, refined with a footprint apart from the rest, advances the loop. */
    lemma RefiningGrow(minHalfSize: real, kids: seq<Cell?>, parts: seq<seq<Cell?>>, i: nat,
                       cells: set<Cell>, arrays: set<array<Cell?>>, part: seq<Cell?>)
      requires minHalfSize > 0.0 && i < 8 && |parts| == i && Layout(kids)
      requires this !in cells && children !in arrays
      requires AllCompleted(kids, minHalfSize, parts, i, cells, arrays)
      requires Pending(kids, i + 1, cells, arrays)
      requires Completed(kids[i], minHalfSize, part)
      requires kids[i].Repr !! cells && kids[i].Arrays !! arrays
      requires this !in kids[i].Repr && children !in kids[i].Arrays
      requires forall k :: i < k < 8 ==> kids[k] !in kids[i].Repr && kids[k].children !in kids[i].Arrays
      ensures Refining(minHalfSize, kids, parts + [part], i + 1, cells + kids[i].Repr, arrays + kids[i].Arrays)
    {
      AllCompletedGrow(kids, minHalfSize, parts, i, cells, arrays, part);
    }

    /** The eight new children start the loop. */
    lemma StartRefining(minHalfSize: real, kids: seq<Cell?>)
      requires children.Length == 8 && kids == children[..] && minHalfSize > 0.0 && halfsize > minHalfSize
      requires forall k :: 0 <= k < 8 ==>
        children[k] != null && children[k] != this && children[k].children != children && NewChild(children[k], k)
      requires forall k, j :: 0 <= k < j < 8 ==>
        children[k] != children[j] && children[k].children != children[j].children
      ensures Refining(minHalfSize, kids, [], 0, {}, {})
    {
    }

    /** The body of the loop of `recursiveSplit`: refine child i, which
        leaves the children before it refined and those after it untouched. */
    method RefineChild(c: Cell, i: int, minHalfSize: real, s: Session, ghost kids: seq<Cell?>,
                       ghost parts: seq<seq<Cell?>>, ghost cells: set<Cell>, ghost arrays: set<array<Cell?>>,
                       ghost m0: map<Vec3, Cell>, ghost R0: set<Cell>, ghost A0: set<array<Cell?>>)
      returns (ghost parts': seq<seq<Cell?>>, ghost cells': set<Cell>, ghost arrays': set<array<Cell?>>)
      requires 0 <= i < 8 && minHalfSize > 0.0 && halfsize > minHalfSize
      requires Refining(minHalfSize, kids, parts, i, cells, arrays) && kids[i] == c
      requires c in R0 && c.children in A0 && c.vertex == Zero && ZeroVertices(cells)
      requires s.cellId == RegisterCentres(m0, Concat(parts))
      modifies c`isLeaf, c`Repr, c`Arrays, c.children, s`cellId
      ensures Refining(minHalfSize, kids, parts', i + 1, cells', arrays')
      ensures s.cellId == RegisterCentres(m0, Concat(parts'))
      ensures fresh(cells' - cells - R0) && fresh(arrays' - arrays - A0) && ZeroVertices(cells')
      decreases Measure(halfsize, minHalfSize), 0, 0
    {
      MeasureDecreases(halfsize, minHalfSize);
      RefineOne(c, minHalfSize, s, cells, arrays);
      ghost var part := c.Created();
      RefiningGrow(minHalfSize, kids, parts, i, cells, arrays, part);
      RegisterCentresAppend(m0, Concat(parts), part);
      parts' := parts + [part];
      cells' := cells + c.Repr;
      arrays' := arrays + c.Arrays;
      assert Concat(parts') == Concat(parts) + part;
    }

    /** `recursiveSplit` on one of the new children: its refinement leaves a
        footprint apart from this cell and from the given footprints. */
    method RefineOne(c: Cell, minHalfSize: real, s: Session, ghost cells: set<Cell>, ghost arrays: set<array<Cell?>>)
      requires minHalfSize > 0.0 && c.FreshLeaf() && c.vertex == Zero && ZeroVertices(cells)
      requires c !in cells && c.children !in arrays && c != this && c.children != children
      modifies c`isLeaf, c`Repr, c`Arrays, c.children, s`cellId
      ensures c.Valid() && Completed(c, minHalfSize, c.Created())
      ensures c.Repr !! cells && c.Arrays !! arrays && this !in c.Repr && children !in c.Arrays
      ensures s.cellId == RegisterCentres(old(s.cellId), c.Created())
      ensures fresh(c.Repr - {c}) && fresh(c.Arrays - {c.children}) && ZeroVertices(cells + c.Repr)
      decreases Measure(c.halfsize, minHalfSize), 2
    {
      c.RecursiveSplit(minHalfSize, s);
      assert cells + c.Repr == cells + (c.Repr - {c}) + {c};
    }

    /** After the loop: the footprints of the refined children join this
        cell's, which makes it a valid internal cell of the wanted shape. */
    ghost method Adopt(minHalfSize: real, kids: seq<Cell?>, parts: seq<seq<Cell?>>,
                       cells: set<Cell>, arrays: set<array<Cell?>>)
      requires !isLeaf && children.Length == 8 && this in Repr && children in Arrays
      requires minHalfSize > 0.0 && halfsize > minHalfSize && !IsHomogeneous(generator, Center(), halfsize)
      requires kids == children[..] && Refining(minHalfSize, kids, parts, 8, cells, arrays)
      requires ZeroVertices(Repr - {this}) && ZeroVertices(cells)
      modifies this`Repr, this`Arrays
      ensures Repr == old(Repr) + cells && Arrays == old(Arrays) + arrays
      ensures ZeroVertices(Repr - {this})
      ensures Valid()
      ensures Abs() == Build(generator, Center(), halfsize, minHalfSize)
      ensures ChildCreated(8) == Concat(parts)
    {
      Repr := Repr + cells;
      Arrays := Arrays + arrays;
      assert Repr - {this} == old(Repr - {this}) + cells;
      ChildrenMakeValid(minHalfSize, kids, parts, cells, arrays);
    }

    /** Eight refined children with disjoint footprints inside this cell's,
        at the octant centres, make this cell's refinement. */
    lemma ChildrenMakeValid(minHalfSize: real, kids: seq<Cell?>, parts: seq<seq<Cell?>>,
                            cells: set<Cell>, arrays: set<array<Cell?>>)
      requires !isLeaf && children.Length == 8 && this in Repr && children in Arrays
      requires minHalfSize > 0.0 && halfsize > minHalfSize && !IsHomogeneous(generator, Center(), halfsize)
      requires |kids| == 8 && |parts| == 8 && forall k :: 0 <= k < 8 ==> children[k] == kids[k]
      requires AllCompleted(kids, minHalfSize, parts, 8, cells, arrays)
      requires cells <= Repr && arrays <= Arrays && this !in cells && children !in arrays
      requires forall k :: 0 <= k < 8 ==>
        kids[k] != null && kids[k].Center() == ChildCenter(Center(), halfsize, k) &&
        kids[k].halfsize == halfsize / 2.0 && kids[k].generator == generator
      ensures Valid()
      ensures Abs() == Build(generator, Center(), halfsize, minHalfSize)
      ensures ChildCreated(8) == Concat(parts)
    {
      assert Valid();
      BuildOfSplit(generator, Center(), halfsize, minHalfSize, ChildShapes(8));
      ChildCreatedIsConcat(8, parts);
    }

    /** The cells created below this one, in creation order: a split makes
        its eight children, then each child's subtree is refined in turn. */
    ghost function Created(): seq<Cell?>
      reads this`Repr, this`Arrays, Repr`isLeaf, Repr`Repr, Repr`Arrays, Arrays
      requires Valid()
      decreases Repr, 1
    {
      if isLeaf then [] else children[..] + ChildCreated(8)
    }

    /** The cells created below the first n children. */
    ghost function ChildCreated(n: nat): seq<Cell?>
      reads this`Repr, this`Arrays, Repr`isLeaf, Repr`Repr, Repr`Arrays, Arrays
      requires Valid() && !isLeaf && n <= 8
      decreases Repr, 0, n
    {
      if n == 0 then [] else ChildCreated(n - 1) + children[n - 1].Created()
    }

    lemma {:induction false} ChildCreatedIsConcat(n: nat, parts: seq<seq<Cell?>>)
      requires Valid() && !isLeaf && n <= 8 && |parts| == n
      requires forall k :: 0 <= k < n ==> children[k].Created() == parts[k]
      ensures ChildCreated(n) == Concat(parts)
    {
      if n > 0 {
        ChildCreatedIsConcat(n - 1, parts[..n - 1]);
      }
    }

    /** `place`: a leaf that is not homogeneous gets its crossings and vertex;
        every other cell passes the call on to its non-null children. */
    method Place(grad: Vec3 -> Vec3, solve: (seq<Vec3>, seq<real>) -> Vec3, s: Session)
      requires Valid() && generator.Some?
      modifies Repr`vertex, s`cellEdge
      ensures s.cellEdge == PlaceAll(old(s.cellEdge), generator.value, old(Leaves()))
      ensures forall c :: c in old(Repr) ==>
        c.vertex == if c in old(Leaves()) then Placed(generator.value, grad, solve, c, old(c.vertex)) else old(c.vertex)
      decreases Repr, 3
    {
      var qualifies := false;
      if isLeaf {
        var h := Homogeneous();
        qualifies := !h;
      }
      if qualifies {
        PlaceLeaf(generator.value, grad, solve, s);
      } else {
        PlaceChildren(grad, solve, s);
      }
    }

    /** The qualifying branch of `place`: walk the edge table, and for each
        edge whose end values have strictly opposite signs record the
        crossing with its normal and append this cell to the edge's list;
        then solve for the vertex unless no edge crossed. */
    method PlaceLeaf(f: Field, grad: Vec3 -> Vec3, solve: (seq<Vec3>, seq<real>) -> Vec3, s: Session)
      requires isLeaf && generator == Some(f) && !IsHomogeneous(generator, Center(), halfsize)
      modifies this`vertex, s`cellEdge
      ensures s.cellEdge == Register(old(s.cellEdge), CrossingKeys(f, Center(), halfsize, 12), this)
      ensures vertex == Placed(f, grad, solve, this, old(vertex))
    {
      var vertices := [Vec3(x - halfsize, y - halfsize, z - halfsize),
                       Vec3(x - halfsize, y - halfsize, z + halfsize),
                       Vec3(x - halfsize, y + halfsize, z - halfsize),
                       Vec3(x - halfsize, y + halfsize, z + halfsize),
                       Vec3(x + halfsize, y - halfsize, z - halfsize),
                       Vec3(x + halfsize, y - halfsize, z + halfsize),
                       Vec3(x + halfsize, y + halfsize, z - halfsize),
                       Vec3(x + halfsize, y + halfsize, z + halfsize)];
      assert vertices == PlaceCorners(Center(), halfsize);
      var cons: seq<Constraint> := [];
      for e := 0 to 12
        invariant cons == Constraints(f, grad, Center(), halfsize, e)
        invariant s.cellEdge == Register(old(s.cellEdge), CrossingKeys(f, Center(), halfsize, e), this)
        invariant vertex == old(vertex)
      {
        cons := PlaceEdge(e, f, grad, vertices, cons, s, old(s.cellEdge));
      }
      CrossingKeysSpec(f, grad, Center(), halfsize, 12);
      var m := |cons|;
      if m == 0 {
        return;
      }
      var rows, rhs := QefSystem(cons);
      vertex := solve(rows, rhs);
    }

    /** One pass of the edge loop of `place`: on a crossing edge, record the
        crossing point with its normal, and append this cell under the edge's key. */
    method PlaceEdge(e: int, f: Field, grad: Vec3 -> Vec3, vertices: seq<Vec3>, cons: seq<Constraint>, s: Session,
                     ghost m0: map<EdgeKey, seq<Cell>>) returns (cons': seq<Constraint>)
      requires 0 <= e < 12 && vertices == PlaceCorners(Center(), halfsize)
      requires cons == Constraints(f, grad, Center(), halfsize, e)
      requires s.cellEdge == Register(m0, CrossingKeys(f, Center(), halfsize, e), this)
      modifies s`cellEdge
      ensures cons' == Constraints(f, grad, Center(), halfsize, e + 1)
      ensures s.cellEdge == Register(m0, CrossingKeys(f, Center(), halfsize, e + 1), this)
    {
      EdgeTableInRange(e);
      var j := EdgeTable[e];
      var p1 := vertices[j.0];
      var p2 := vertices[j.1];
      var v1 := f(p1.x, p1.y, p1.z);
      var v2 := f(p2.x, p2.y, p2.z);
      assert p1 == EdgeStart(Center(), halfsize, e) && p2 == EdgeEnd(Center(), halfsize, e);
      assert Crosses(f, Center(), halfsize, e) <==> v1 * v2 < 0.0;
      cons' := cons;
      if v1 * v2 < 0.0 {
        DistinctWhenOpposite(v1, v2);
        var p := Intersection(p1, p2, v1, v2);
        var n := grad(p);
        cons' := cons + [Constraint(p, n)];
        var key := EdgeKey(p1, p2);
        assert key == KeyAt(Center(), halfsize, e);
        RegisterOneMore(m0, CrossingKeys(f, Center(), halfsize, e), key, this);
        s.cellEdge := s.cellEdge[key := Get(s.cellEdge, key) + [this]];
        assert CrossingKeys(f, Center(), halfsize, e + 1) == CrossingKeys(f, Center(), halfsize, e) + [key];
      } else {
        assert CrossingKeys(f, Center(), halfsize, e + 1) == CrossingKeys(f, Center(), halfsize, e);
      }
    }

    /** The other branch of `place`: visit the children in slot order. */
    method PlaceChildren(grad: Vec3 -> Vec3, solve: (seq<Vec3>, seq<real>) -> Vec3, s: Session)
      requires Valid() && generator.Some? && !(isLeaf && !IsHomogeneous(generator, Center(), halfsize))
      modifies Repr`vertex, s`cellEdge
      ensures s.cellEdge == PlaceAll(old(s.cellEdge), generator.value, old(Leaves()))
      ensures forall c :: c in old(Repr) ==>
        c.vertex == if c in old(Leaves()) then Placed(generator.value, grad, solve, c, old(c.vertex)) else old(c.vertex)
      decreases Repr, 2
    {
      var f := generator.value;
      ghost var leaves := Leaves();
      ghost var v0, parts, ms, dones, all := PrepareVisit(f, grad, solve, s.cellEdge);
      VisitSlots(f, grad, solve, s, ms, v0, parts, dones);
      FinishVisiting(f, grad, solve, s, old(s.cellEdge), v0, ms, dones, all, leaves);
    }

    /** The ghost state the child loop of `place` is checked against: the
        vertices before it, the slots' leaf lists, and the registries and
        visited leaves after each slot. */
    ghost method PrepareVisit(f: Field, grad: Vec3 -> Vec3, solve: (seq<Vec3>, seq<real>) -> Vec3, m0: map<EdgeKey, seq<Cell>>)
      returns (v0: map<Cell, Vec3>, parts: seq<seq<Cell>>, ms: seq<map<EdgeKey, seq<Cell>>>, dones: seq<seq<Cell>>, all: seq<Cell>)
      requires Valid() && generator == Some(f)
      ensures Slots(f, parts) && Steps(f, ms, parts, dones) && ms[0] == m0 && Visited(0, f, grad, solve, v0, dones)
      ensures ms[8] == PlaceAll(m0, f, all) && dones[8] == all && all == if isLeaf then [] else Leaves()
      ensures forall c :: c in Repr ==> c in v0 && v0[c] == c.vertex
    {
      v0 := map c | c in Repr :: c.vertex;
      parts := SlotLeaves(8);
      ms, dones := Progression(m0, f, parts), Prefixes(parts);
      StartVisiting(f, parts);
      ProgressionEnd(m0, f, parts);
      PrefixesEnd(parts);
      all := Concat(parts);
    }

    /** The child loop of `place`. */
    method VisitSlots(f: Field, grad: Vec3 -> Vec3, solve: (seq<Vec3>, seq<real>) -> Vec3, s: Session,
                      ghost ms: seq<map<EdgeKey, seq<Cell>>>, ghost v0: map<Cell, Vec3>,
                      ghost parts: seq<seq<Cell>>, ghost dones: seq<seq<Cell>>)
      requires Slots(f, parts) && Steps(f, ms, parts, dones)
      requires s.cellEdge == ms[0] && Visited(0, f, grad, solve, v0, dones)
      modifies Repr`vertex, s`cellEdge
      ensures s.cellEdge == ms[8] && Visited(8, f, grad, solve, v0, dones)
      decreases Repr, 1
    {
      for i := 0 to 8
        invariant Slots(f, parts)
        invariant s.cellEdge == ms[i] && Visited(i, f, grad, solve, v0, dones)
      {
        PlaceChild(i, f, grad, solve, s, ms, v0, parts, dones);
      }
    }

    /** After the child loop every slot's leaves have been visited, so the
        whole subtree's leaves have; a leaf reaching this branch is homogeneous
        and registers nothing. */
    lemma FinishVisiting(f: Field, grad: Vec3 -> Vec3, solve: (seq<Vec3>, seq<real>) -> Vec3, s: Session,
                         m0: map<EdgeKey, seq<Cell>>, v0: map<Cell, Vec3>, ms: seq<map<EdgeKey, seq<Cell>>>,
                         dones: seq<seq<Cell>>, all: seq<Cell>, leaves: seq<Cell>)
      requires |ms| == 9 && s.cellEdge == ms[8] && ms[8] == PlaceAll(m0, f, all)
      requires Visited(8, f, grad, solve, v0, dones) && dones[8] == all
      requires all == if isLeaf then [] else leaves
      requires isLeaf ==> leaves == [this] && IsHomogeneous(Some(f), Center(), halfsize)
      ensures s.cellEdge == PlaceAll(m0, f, leaves)
      ensures forall c :: c in Repr ==>
        c in v0 && c.vertex == if c in leaves then Placed(f, grad, solve, c, v0[c]) else v0[c]
    {
      if isLeaf {
        assert LeafKeys(f, this) == [];
        assert Register(m0, [], this) == m0;
        assert PlaceAll(m0, f, leaves) == Register(PlaceAll(m0, f, []), [], this);
      }
    }

    /** One pass of the child loop of `place`, on slot i. */
    method PlaceChild(i: int, f: Field, grad: Vec3 -> Vec3, solve: (seq<Vec3>, seq<real>) -> Vec3, s: Session,
                      ghost ms: seq<map<EdgeKey, seq<Cell>>>, ghost v0: map<Cell, Vec3>,
                      ghost parts: seq<seq<Cell>>, ghost dones: seq<seq<Cell>>)
      requires 0 <= i < 8 && Slots(f, parts) && Steps(f, ms, parts, dones)
      requires s.cellEdge == ms[i] && Visited(i, f, grad, solve, v0, dones)
      modifies Repr`vertex, s`cellEdge
      ensures s.cellEdge == ms[i + 1] && Visited(i + 1, f, grad, solve, v0, dones)
      decreases Repr, 0
    {
      var kid := children[i];
      assert Slot(i, f, parts[i]);
      if kid != null {
        DoneApart(i, i, f, parts, ms, dones);
        kid.Place(grad, solve, s);
        forall c | c in Repr
          ensures c in v0 && c.vertex == if c in dones[i + 1] then Placed(f, grad, solve, c, v0[c]) else v0[c]
        {
          if c in kid.Repr {
            assert c !in dones[i];
          }
        }
      } else {
        assert dones[i + 1] == dones[i];
      }
    }

    /** The leaves under slot k as a list: none for an empty slot. */
    ghost function SlotLeaves(n: nat): (r: seq<seq<Cell>>)
      reads this`Repr, this`Arrays, Repr`isLeaf, Repr`Repr, Repr`Arrays, Arrays
      requires Valid() && n <= 8
      ensures |r| == n && forall k :: 0 <= k < n ==> r[k] == if children[k] == null then [] else children[k].Leaves()
    {
      if n == 0 then [] else SlotLeaves(n - 1) + [if children[n - 1] == null then [] else children[n - 1].Leaves()]
    }

    /** Slot k is empty and so is its list, or it holds a well-formed subtree
        of this cell with the same generator whose leaves are listed. */
    ghost predicate Slot(k: int, f: Field, part: seq<Cell>)
      reads this`Repr, this`Arrays, children, children[..]`Repr, children[..]`Arrays, Repr`isLeaf, Repr`Repr, Repr`Arrays, Arrays
      requires 0 <= k < children.Length
    {
      if children[k] == null then part == []
      else
        var kid := children[k];
        kid.Repr <= Repr && this !in kid.Repr && kid.Arrays <= Arrays && kid.Valid() &&
        kid.generator == Some(f) && kid.Leaves() == part && forall c :: c in part ==> c in kid.Repr
    }

    /** The eight slots with their leaf lists, the subtrees pairwise disjoint:
        what the child loop of `place` relies on and never changes. */
    ghost predicate Slots(f: Field, parts: seq<seq<Cell>>)
      reads this`Repr, this`Arrays, children, children[..]`Repr, children[..]`Arrays, Repr`isLeaf, Repr`Repr, Repr`Arrays, Arrays
    {
      |parts| == 8 && children.Length == 8 && this in Repr &&
      (forall k :: 0 <= k < 8 ==> Slot(k, f, parts[k])) &&
      forall j, k :: 0 <= j < k < 8 && children[j] != null && children[k] != null ==>
        children[j].Repr !! children[k].Repr
    }

    /** The child loop has visited the slots before i, whose leaves are
        dones[i]: exactly those leaves have been placed. */
    ghost predicate Visited(i: nat, f: Field, grad: Vec3 -> Vec3, solve: (seq<Vec3>, seq<real>) -> Vec3,
                            v0: map<Cell, Vec3>, dones: seq<seq<Cell>>)
      reads this`Repr, Repr`isLeaf, Repr`vertex
    {
      i < |dones| &&
      forall c :: c in Repr ==>
        c in v0 && c.vertex == if c in dones[i] then Placed(f, grad, solve, c, v0[c]) else v0[c]
    }

    /** The leaves of the slots before n lie outside the subtree in slot i. */
    lemma {:induction false} DoneApart(n: nat, i: int, f: Field, parts: seq<seq<Cell>>,
                                       ms: seq<map<EdgeKey, seq<Cell>>>, dones: seq<seq<Cell>>)
      requires Slots(f, parts) && Steps(f, ms, parts, dones) && n <= i < 8 && children[i] != null
      ensures forall c :: c in dones[n] ==> c !in children[i].Repr
    {
      if n > 0 {
        DoneApart(n - 1, i, f, parts, ms, dones);
        assert Slot(n - 1, f, parts[n - 1]);
      }
    }

    lemma StartVisiting(f: Field, parts: seq<seq<Cell>>)
      requires Valid() && generator == Some(f) && parts == SlotLeaves(8)
      ensures Slots(f, parts)
      ensures Concat(parts) == if isLeaf then [] else Leaves()
    {
      forall k | 0 <= k < 8
        ensures Slot(k, f, parts[k])
      {
        if children[k] != null {
          children[k].LeavesInRepr();
        }
      }
      if !isLeaf {
        SlotLeavesConcat(8);
      } else {
        assert forall k :: 0 <= k < 8 ==> parts[k] == [];
        EmptyConcat(parts);
      }
    }

    lemma {:induction false} SlotLeavesConcat(n: nat)
      requires Valid() && !isLeaf && n <= 8
      ensures Concat(SlotLeaves(n)) == ChildLeaves(n)
      decreases n
    {
      if n > 0 {
        assert SlotLeaves(n)[..n - 1] == SlotLeaves(n - 1);
        SlotLeavesConcat(n - 1);
      }
    }

    /** Every leaf of the subtree is one of its cells. */
    lemma LeavesInRepr()
      requires Valid()
      ensures forall c :: c in Leaves() ==> c in Repr
      decreases Repr, 1
    {
      if !isLeaf {
        ChildLeavesInRepr(8);
      }
    }

    lemma {:induction false} ChildLeavesInRepr(n: nat)
      requires Valid() && !isLeaf && n <= 8
      ensures forall c :: c in ChildLeaves(n) ==> exists k :: 0 <= k < n && c in children[k].Repr
      decreases Repr, 0, n
    {
      if n > 0 {
        ChildLeavesInRepr(n - 1);
        children[n - 1].LeavesInRepr();
      }
    }

    /** `homogeneous`: count the centre and each corner agreeing with it. */
    method Homogeneous() returns (r: bool)
      ensures r == IsHomogeneous(generator, Center(), halfsize)
    {
      if generator.None? {
        return false;
      }
      var f := generator.value;
      var centerVal := f(x, y, z);
      var total := 1;
      for i := 0 to 8
        invariant total == 1 + AgreeCount(f, Center(), halfsize, i)
      {
        var nx := if HasBit(i, 1) then x - halfsize else x + halfsize;
        var ny := if HasBit(i, 2) then y - halfsize else y + halfsize;
        var nz := if HasBit(i, 4) then z - halfsize else z + halfsize;
        if f(nx, ny, nz) * centerVal > 0.0 {
          total := total + 1;
        }
      }
      AgreeCountFull(f, Center(), halfsize, 8);
      r := total == 9;
    }
  }

  /** Every listed cell still has the vertex (0, 0, 0) it was made with. */
  ghost predicate ZeroVertices(cells: set<Cell>)
    reads cells`vertex
  {
    forall c :: c in cells ==> c.vertex == Zero
  }

  /** The smallest half size `recursiveSplit` is asked to reach. */
  const MinHalfSize: real := 0.1

  /** A new cell at c of half size h, refined down to `min`. Its shape is
      stated by Refined, which fixes it uniquely (RefinedIsBuild). */
  method NewRoot(gen: Option<Field>, c: Vec3, h: real, min: real, s: Session) returns (root: Cell)
    requires min > 0.0
    modifies s`cellId
    ensures root.Valid() && root.generator == gen && root.Center() == c && root.halfsize == h
    ensures Refined(gen, root.Abs(), min)
    ensures s.cellId == RegisterCentres(old(s.cellId)[c := root], root.Created())
    ensures fresh(root.Repr) && fresh(root.Arrays) && ZeroVertices(root.Repr)
  {
    root := new Cell(c.x, c.y, c.z, h, gen, s);
    root.isLeaf := true;
    root.RecursiveSplit(min, s);
    assert root.Repr == (root.Repr - {root}) + {root};
    BuildIsRefined(gen, c, h, min);
  }

  /** The tree: a root cube of half size 2 at the origin, refined on construction. */
  class Octree {
    const root: Cell
    const generator: Option<Field>

    ghost predicate Valid()
      reads this, root`Repr, root`Arrays, root.Repr`isLeaf, root.Repr`Repr, root.Repr`Arrays, root.Arrays
    {
      root.Valid() && root.generator == generator && root.Center() == Zero && root.halfsize == 2.0
    }

    /** The root is made, registered under the origin, and refined; the tree
        then has the shape Build gives for the root cube. */
    constructor (gen: Option<Field>, s: Session)
      modifies s`cellId
      ensures Valid() && generator == gen
      ensures Refined(gen, root.Abs(), MinHalfSize)
      ensures s.cellId == RegisterCentres(old(s.cellId)[Zero := root], root.Created())
      ensures fresh(root.Repr) && fresh(root.Arrays) && ZeroVertices(root.Repr)
    {
      var r := NewRoot(gen, Zero, 2.0, MinHalfSize, s);
      assert r.Valid() && Refined(gen, r.Abs(), MinHalfSize) && ZeroVertices(r.Repr);
      root, generator := r, gen;
    }

    /** `placeVertex`: place the root, which places every leaf in order. */
    method PlaceVertex(grad: Vec3 -> Vec3, solve: (seq<Vec3>, seq<real>) -> Vec3, s: Session)
      requires Valid() && generator.Some?
      modifies root.Repr`vertex, s`cellEdge
      ensures s.cellEdge == PlaceAll(old(s.cellEdge), generator.value, old(root.Leaves()))
      ensures forall c :: c in old(root.Repr) ==>
        c.vertex == if c in old(root.Leaves()) then Placed(generator.value, grad, solve, c, old(c.vertex)) else old(c.vertex)
    {
      root.Place(grad, solve, s);
    }
  }

  /** The root cube is halved at most five times: no leaf lies deeper than
      level 5, whatever the field. */
  lemma TreeDepth(gen: Option<Field>)
    ensures Levels(2.0, MinHalfSize) == 5
    ensures DepthAtMost(Build(gen, Zero, 2.0, MinHalfSize), 5)
  {
    assert Levels(0.0625, MinHalfSize) == 0;
    assert Levels(0.125, MinHalfSize) == 1;
    assert Levels(0.25, MinHalfSize) == 2;
    assert Levels(0.5, MinHalfSize) == 3;
    assert Levels(1.0, MinHalfSize) == 4;
    BuildDepth(gen, Zero, 2.0, MinHalfSize);
  }
}
