/** Linear interpolation of the surface crossing along one cube edge. */
module Interpolation {
  import opened Vectors

  /** The point p1 + t * (p2 - p1) of the line through p1 and p2. */
  function Lerp(p1: Vec3, p2: Vec3, t: real): Vec3 {
    Vec3(p1.x + t * (p2.x - p1.x),
         p1.y + t * (p2.y - p1.y),
         p1.z + t * (p2.z - p1.z))
  }

  /** The parameter at which the linear interpolant of the end values v1 and v2
      crosses zero; it lies strictly inside the edge when the signs differ. */
  function Fraction(v1: real, v2: real): (t: real)
    requires v1 != v2
    ensures v1 + t * (v2 - v1) == 0.0
    ensures v1 * v2 < 0.0 ==> 0.0 < t < 1.0
  {
    var t := (0.0 - v1) / (v2 - v1);
    QuotientTimesDivisor(0.0 - v1, v2 - v1);
    if v1 * v2 < 0.0 then
      OppositeSigns(v1, v2);
      FractionInside(v1, v2);
      t
    else t
  }

  lemma QuotientTimesDivisor(a: real, d: real)
    requires d != 0.0
    ensures (a / d) * d == a
  {
  }

  /** A negative product means strictly opposite signs. */
  lemma OppositeSigns(v1: real, v2: real)
    requires v1 * v2 < 0.0
    ensures (v1 < 0.0 && v2 > 0.0) || (v1 > 0.0 && v2 < 0.0)
  {
  }

  lemma FractionInside(v1: real, v2: real)
    requires (v1 < 0.0 && v2 > 0.0) || (v1 > 0.0 && v2 < 0.0)
    ensures 0.0 < (0.0 - v1) / (v2 - v1) < 1.0
  {
    if v1 < 0.0 {
      QuotientBelowOne(0.0 - v1, v2 - v1);
    } else {
      assert (0.0 - v1) / (v2 - v1) == v1 / (v1 - v2);
      QuotientBelowOne(v1, v1 - v2);
    }
  }

  lemma QuotientBelowOne(a: real, d: real)
    requires 0.0 < a < d
    ensures 0.0 < a / d < 1.0
  {
    calc {
      1.0 - a / d;
      { assert d / d == 1.0; }
      d / d - a / d;
      (d - a) / d;
    }
    PositiveQuotient(d - a, d);
  }

  lemma PositiveQuotient(x: real, d: real)
    requires x > 0.0 && d > 0.0
    ensures x / d > 0.0
  {
  }

  /** `intersections`: the crossing point along the edge p1-p2 given the field
      values v1 at p1 and v2 at p2. With opposite signs it lies on the open
      segment, coordinate by coordinate between the two end points. */
  function Intersection(p1: Vec3, p2: Vec3, v1: real, v2: real): (p: Vec3)
    requires v1 != v2
    ensures v1 * v2 < 0.0 ==> Between(p1.x, p.x, p2.x) && Between(p1.y, p.y, p2.y) && Between(p1.z, p.z, p2.z)
  {
    var t := Fraction(v1, v2);
    var p := Lerp(p1, p2, t);
    if v1 * v2 < 0.0 then
      StepBetween(p1.x, p2.x, t);
      StepBetween(p1.y, p2.y, t);
      StepBetween(p1.z, p2.z, t);
      p
    else p
  }

  lemma StepBetween(a: real, b: real, t: real)
    requires 0.0 < t < 1.0
    ensures Between(a, a + t * (b - a), b)
  {
    var c := a + t * (b - a);
    if a < b {
      calc { c - a; t * (b - a); > 0.0; }
      calc { b - c; (1.0 - t) * (b - a); > { PositiveProduct(1.0 - t, b - a); } 0.0; }
    } else if b < a {
      calc { a - c; t * (a - b); > 0.0; }
      calc { c - b; (1.0 - t) * (a - b); > { PositiveProduct(1.0 - t, a - b); } 0.0; }
    }
  }

  lemma PositiveProduct(x: real, y: real)
    requires x > 0.0 && y > 0.0
    ensures x * y > 0.0
  {
  }

  /** c lies between a and b, strictly unless a == b. */
  predicate Between(a: real, c: real, b: real) {
    if a < b then a < c < b
    else if b < a then b < c < a
    else c == a
  }

  /** The crossing point is p1 moved towards p2 by the fraction t of the
      edge vector, with 0 < t < 1 when the end values have opposite signs. */
  lemma IntersectionIsAtFraction(p1: Vec3, p2: Vec3, v1: real, v2: real)
    requires v1 != v2
    ensures Sub(Intersection(p1, p2, v1, v2), p1) == Scale(Sub(p2, p1), Fraction(v1, v2))
    ensures v1 * v2 < 0.0 ==> 0.0 < Fraction(v1, v2) < 1.0
  {
  }

  /** For a field that is linear along the edge with end values v1 and v2,
      the returned point is an exact zero of the field. */
  lemma ZeroOfLinearField(f: Vec3 -> real, p1: Vec3, p2: Vec3, v1: real, v2: real)
    requires v1 != v2
    requires forall s :: f(Lerp(p1, p2, s)) == v1 + s * (v2 - v1)
    ensures f(Intersection(p1, p2, v1, v2)) == 0.0
  {
    var t := Fraction(v1, v2);
    assert f(Lerp(p1, p2, t)) == v1 + t * (v2 - v1);
  }

  /** An affine field g.p + c is linear along every edge. */
  lemma {:induction false} AffineIsLinearAlongEdges(g: Vec3, c: real, p1: Vec3, p2: Vec3, s: real)
    ensures Dot(g, Lerp(p1, p2, s)) + c == (Dot(g, p1) + c) + s * ((Dot(g, p2) + c) - (Dot(g, p1) + c))
  {
    calc {
      Dot(g, Lerp(p1, p2, s)) + c;
      g.x * (p1.x + s * (p2.x - p1.x)) + g.y * (p1.y + s * (p2.y - p1.y)) + g.z * (p1.z + s * (p2.z - p1.z)) + c;
      { Distribute(g.x, p1.x, s, p2.x - p1.x);
        Distribute(g.y, p1.y, s, p2.y - p1.y);
        Distribute(g.z, p1.z, s, p2.z - p1.z); }
      (g.x * p1.x + s * (g.x * (p2.x - p1.x))) + (g.y * p1.y + s * (g.y * (p2.y - p1.y))) + (g.z * p1.z + s * (g.z * (p2.z - p1.z))) + c;
      (Dot(g, p1) + c) + s * (g.x * (p2.x - p1.x) + g.y * (p2.y - p1.y) + g.z * (p2.z - p1.z));
      { Difference(g.x, p2.x, p1.x); Difference(g.y, p2.y, p1.y); Difference(g.z, p2.z, p1.z); }
      (Dot(g, p1) + c) + s * ((Dot(g, p2) + c) - (Dot(g, p1) + c));
    }
  }

  lemma Distribute(g: real, a: real, s: real, d: real)
    ensures g * (a + s * d) == g * a + s * (g * d)
  {
  }

  lemma Difference(g: real, b: real, a: real)
    ensures g * (b - a) == g * b - g * a
  {
  }

  /** Hence the crossing point of an affine field is exactly on its zero set. */
  lemma ZeroOfAffineField(g: Vec3, c: real, p1: Vec3, p2: Vec3)
    requires Dot(g, p1) + c != Dot(g, p2) + c
    ensures Dot(g, Intersection(p1, p2, Dot(g, p1) + c, Dot(g, p2) + c)) + c == 0.0
  {
    var t := Fraction(Dot(g, p1) + c, Dot(g, p2) + c);
    AffineIsLinearAlongEdges(g, c, p1, p2, t);
  }

  /** The crossing point does not depend on the direction the edge is walked. */
  lemma IntersectionSymmetric(p1: Vec3, p2: Vec3, v1: real, v2: real)
    requires v1 != v2
    ensures Intersection(p1, p2, v1, v2) == Intersection(p2, p1, v2, v1)
  {
    var t := Fraction(v1, v2);
    FractionsComplement(v1, v2);
    assert Intersection(p2, p1, v2, v1) == Lerp(p2, p1, 1.0 - t);
    LerpFlip(p1.x, p2.x, t);
    LerpFlip(p1.y, p2.y, t);
    LerpFlip(p1.z, p2.z, t);
  }

  lemma FractionsComplement(v1: real, v2: real)
    requires v1 != v2
    ensures Fraction(v2, v1) == 1.0 - Fraction(v1, v2)
  {
    var t := Fraction(v1, v2);
    var u := Fraction(v2, v1);
    var d := v2 - v1;
    calc {
      (u + t) * d;
      u * d + t * d;
      { Negate(u, v1 - v2); }
      (0.0 - u * (v1 - v2)) + t * d;
      v2 - v1;
      d;
    }
    CancelNonZero(u + t, d);
  }

  lemma Negate(u: real, e: real)
    ensures u * (0.0 - e) == 0.0 - u * e
  {
  }

  /** The only factor that leaves a non-zero number unchanged is one. */
  lemma CancelNonZero(x: real, d: real)
    requires d != 0.0 && x * d == d
    ensures x == 1.0
  {
    if d > 0.0 {
      CancelPositive(x, d);
    } else {
      Negate(x, d);
      assert d == 0.0 - (0.0 - d);
      CancelPositive(x, 0.0 - d);
    }
  }

  lemma LerpFlip(a: real, b: real, t: real)
    ensures b + (1.0 - t) * (a - b) == a + t * (b - a)
  {
  }
}

/** `triangulate`: every key's cell list is cut into consecutive triples of
    vertices, in the order the key's cells were registered. */
module Triangulation {
  import opened Vectors
  import opened Octree

  /** The vertices of the listed cells, in order. */
  function Vertices(cells: seq<Cell>): (vs: seq<Vec3>)
    reads cells
    ensures |vs| == |cells| && forall i :: 0 <= i < |cells| ==> vs[i] == cells[i].vertex
  {
    if |cells| == 0 then [] else Vertices(cells[..|cells| - 1]) + [cells[|cells| - 1].vertex]
  }

  /** Consecutive triples of vs, front to back; a trailing one or two
      values make no triple. */
  function Chunks(vs: seq<Vec3>): (r: seq<seq<Vec3>>)
    ensures |r| == |vs| / 3
  {
    if |vs| < 3 then [] else [vs[..3]] + Chunks(vs[3..])
  }

  /** Triple k is the values at 3k, 3k + 1 and 3k + 2. */
  lemma {:induction false} ChunkAt(vs: seq<Vec3>, k: nat)
    requires k < |vs| / 3
    ensures |Chunks(vs)[k]| == 3 && Chunks(vs)[k] == vs[3 * k .. 3 * k + 3]
  {
    if k > 0 {
      var rest, j := vs[3..], 3 * k - 3;
      assert 3 * (k - 1) == j && 3 * k == j + 3;
      ChunkAt(rest, k - 1);
      assert |vs| >= j + 6;
      var a, b := rest[j .. j + 3], vs[j + 3 .. j + 6];
      forall t | 0 <= t < 3
        ensures a[t] == b[t]
      {
        assert rest[j + t] == vs[j + 3 + t];
      }
      assert a == b;
    }
  }

  /** Cutting a list whose length is a multiple of three, then the rest,
      is cutting the whole. */
  lemma {:induction false} ChunksAppend(a: seq<Vec3>, b: seq<Vec3>)
    requires |a| % 3 == 0
    ensures Chunks(a + b) == Chunks(a) + Chunks(b)
  {
    if |a| == 0 {
      assert a + b == b;
    } else {
      assert (a + b)[..3] == a[..3];
      assert (a + b)[3..] == a[3..] + b;
      ChunksAppend(a[3..], b);
    }
  }

  /** Every cell registered in the map. */
  ghost function Registered(m: map<EdgeKey, seq<Cell>>): set<Cell> {
    set k, c | k in m && c in m[k] :: c
  }

  /** The vertices of each key's cells, as the heap holds them now. */
  ghost function VertexLists(m: map<EdgeKey, seq<Cell>>): (vl: map<EdgeKey, seq<Vec3>>)
    reads Registered(m)
    ensures vl.Keys == m.Keys
    ensures forall k :: k in m ==> |vl[k]| == |m[k]|
  {
    map k | k in m :: assert forall c :: c in m[k] ==> c in Registered(m); Vertices(m[k])
  }

  /** The triangles emitted when the keys are visited in `order`, given each
      key's vertex list. */
  function Assemble(vl: map<EdgeKey, seq<Vec3>>, order: seq<EdgeKey>): seq<seq<Vec3>> {
    if |order| == 0 then []
    else Assemble(vl, order[..|order| - 1]) + Chunks(Get(vl, order[|order| - 1]))
  }

  /** The triangle count the source promises: floor(|cells| / 3) per key. */
  function TriangleCount(m: map<EdgeKey, seq<Cell>>, order: seq<EdgeKey>): nat {
    if |order| == 0 then 0
    else TriangleCount(m, order[..|order| - 1]) + |Get(m, order[|order| - 1])| / 3
  }

  /** `triangulate`: visit each key of `cell_edge` once, in an order the
      hash map chooses, and cut the vertices of its cells into triangles. */
  method Triangulate(s: Session) returns (triangles: seq<seq<Vec3>>, ghost order: seq<EdgeKey>)
    ensures NoDuplicates(order) && forall k :: k in order <==> k in s.cellEdge
    ensures triangles == Assemble(VertexLists(s.cellEdge), order)
    ensures forall t :: t in triangles ==> (|t| == 3 && IsTripleOf(VertexLists(s.cellEdge), t))
  {
    var m := s.cellEdge;
    ghost var vl := VertexLists(m);
    triangles := [];
    order := [];
    var rest := m.Keys;
    while rest != {}
      invariant rest <= m.Keys
      invariant forall k :: k in order <==> k in m && k !in rest
      invariant NoDuplicates(order)
      invariant triangles == Assemble(vl, order)
      invariant unchanged(Registered(m))
      decreases |rest|
    {
      var k :| k in rest;
      triangles := CutKey(m[k], triangles);
      assert forall c :: c in m[k] ==> c in Registered(m);
      assert Vertices(m[k]) == vl[k];
      AssembleStep(vl, order, k);
      NoDuplicatesStep(order, k);
      order := order + [k];
      rest := rest - {k};
    }
    assert vl == VertexLists(m);
    Origins(vl, order, triangles);
  }

  /** t is one of the triples cut from some key's vertex list. */
  ghost predicate IsTripleOf(vl: map<EdgeKey, seq<Vec3>>, t: seq<Vec3>) {
    exists k, j :: k in vl && 0 <= j < |Chunks(vl[k])| && t == Chunks(vl[k])[j]
  }

  /** Every triangle of an order of existing keys is a triple of one key's list. */
  lemma Origins(vl: map<EdgeKey, seq<Vec3>>, order: seq<EdgeKey>, triangles: seq<seq<Vec3>>)
    requires triangles == Assemble(vl, order) && forall k :: k in order ==> k in vl
    ensures forall t :: t in triangles ==> (|t| == 3 && IsTripleOf(vl, t))
  {
    forall t | t in triangles
      ensures |t| == 3 && IsTripleOf(vl, t)
    {
      TriangleOrigin(vl, order, t);
      var k, j :| k in order && 0 <= j < |Chunks(Get(vl, k))| && t == Chunks(Get(vl, k))[j];
      assert k in vl && Get(vl, k) == vl[k];
    }
  }

  /** The inner loop of `triangulate` for one key: a fresh buffer collects
      the vertices of the key's cells, and is emitted and cleared whenever it
      holds three. */
  method CutKey(cells: seq<Cell>, triangles: seq<seq<Vec3>>) returns (out: seq<seq<Vec3>>)
    ensures out == triangles + Chunks(Vertices(cells))
  {
    ghost var vs := Vertices(cells);
    ghost var q := 0;
    out := triangles;
    var vertices: seq<Vec3> := [];
    for i := 0 to |cells|
      invariant 3 * q <= i < 3 * q + 3
      invariant vertices == vs[3 * q .. i]
      invariant out == triangles + Chunks(vs[..3 * q])
    {
      assert vs[3 * q .. i + 1] == vs[3 * q .. i] + [vs[i]];
      vertices := vertices + [cells[i].vertex];
      if |vertices| == 3 {
        TripleCompletes(vs, q);
        out := out + [vertices];
        vertices := [];
        q := q + 1;
      }
    }
    RemainderDropped(vs, q);
  }

  /** The three values after the first 3q complete one more triple. */
  lemma TripleCompletes(vs: seq<Vec3>, q: nat)
    requires 3 * q + 3 <= |vs|
    ensures Chunks(vs[..3 * q + 3]) == Chunks(vs[..3 * q]) + [vs[3 * q .. 3 * q + 3]]
  {
    var n := 3 * q;
    assert vs[..n + 3] == vs[..n] + vs[n .. n + 3];
    ChunksAppend(vs[..n], vs[n .. n + 3]);
    assert vs[n .. n + 3][..3] == vs[n .. n + 3];
  }

  /** Fewer than three values left over make no triple. */
  lemma RemainderDropped(vs: seq<Vec3>, q: nat)
    requires 3 * q <= |vs| < 3 * q + 3
    ensures Chunks(vs) == Chunks(vs[..3 * q])
  {
    var n := 3 * q;
    assert vs == vs[..n] + vs[n..];
    ChunksAppend(vs[..n], vs[n..]);
  }

  /** Visiting a concatenation of orders emits the two parts' triangles in turn. */
  lemma {:induction false} AssembleAppend(vl: map<EdgeKey, seq<Vec3>>, a: seq<EdgeKey>, b: seq<EdgeKey>)
    ensures Assemble(vl, a + b) == Assemble(vl, a) + Assemble(vl, b)
  {
    if |b| == 0 {
      assert a + b == a;
    } else {
      var b' := b[..|b| - 1];
      assert (a + b)[..|a + b| - 1] == a + b';
      AssembleAppend(vl, a, b');
    }
  }

  /** The number of triangles is the sum over the keys of floor(|cells| / 3). */
  lemma {:induction false} TriangleCountSpec(m: map<EdgeKey, seq<Cell>>, order: seq<EdgeKey>)
    ensures |Assemble(VertexLists(m), order)| == TriangleCount(m, order)
  {
    if |order| > 0 {
      TriangleCountSpec(m, order[..|order| - 1]);
    }
  }

  /** Each triangle has three vertices and is one triple of a single key's
      list: the buffer never mixes cells of two keys. */
  lemma {:induction false} TriangleOrigin(vl: map<EdgeKey, seq<Vec3>>, order: seq<EdgeKey>, t: seq<Vec3>)
    requires t in Assemble(vl, order)
    ensures |t| == 3
    ensures exists k, j :: k in order && 0 <= j < |Chunks(Get(vl, k))| && t == Chunks(Get(vl, k))[j]
  {
    var init := order[..|order| - 1];
    var k := order[|order| - 1];
    if t in Assemble(vl, init) {
      TriangleOrigin(vl, init, t);
      var k', j :| k' in init && 0 <= j < |Chunks(Get(vl, k'))| && t == Chunks(Get(vl, k'))[j];
      assert k' in order;
    } else {
      var j :| 0 <= j < |Chunks(Get(vl, k))| && t == Chunks(Get(vl, k))[j];
      ChunkAt(Get(vl, k), j);
    }
  }

  lemma MultisetCancel<T>(x: multiset<T>, y: multiset<T>, k: T)
    requires x + multiset{k} == y + multiset{k}
    ensures x == y
  {
    forall e
      ensures x[e] == y[e]
    {
      assert (x + multiset{k})[e] == (y + multiset{k})[e];
    }
  }

  /** Visiting one more key appends that key's triangles. */
  lemma AssembleStep(vl: map<EdgeKey, seq<Vec3>>, order: seq<EdgeKey>, k: EdgeKey)
    ensures Assemble(vl, order + [k]) == Assemble(vl, order) + Chunks(Get(vl, k))
  {
    assert (order + [k])[..|order|] == order;
  }

  lemma NoDuplicatesStep(order: seq<EdgeKey>, k: EdgeKey)
    requires NoDuplicates(order) && k !in order
    ensures NoDuplicates(order + [k])
  {
  }

  /** Removing one occurrence of the last key of o1 from o2 leaves a
      rearrangement of the rest of o1. */
  lemma {:induction false} RemoveKey(o1: seq<EdgeKey>, o2: seq<EdgeKey>) returns (a: seq<EdgeKey>, b: seq<EdgeKey>)
    requires |o1| > 0 && multiset(o1) == multiset(o2)
    ensures o2 == a + [o1[|o1| - 1]] + b
    ensures multiset(o1[..|o1| - 1]) == multiset(a + b)
  {
    var init := o1[..|o1| - 1];
    var k := o1[|o1| - 1];
    assert o1 == init + [k];
    assert k in multiset(o2);
    var j :| 0 <= j < |o2| && o2[j] == k;
    a, b := o2[..j], o2[j + 1..];
    assert o2 == a + [k] + b;
    assert multiset(init) + multiset{k} == multiset(a + b) + multiset{k};
    MultisetCancel(multiset(init), multiset(a + b), k);
  }

  /** The order the hash map yields changes only the order of the triangles:
      any two orders of the same keys emit the same multiset of triangles. */
  lemma {:induction false} OrderIrrelevant(vl: map<EdgeKey, seq<Vec3>>, o1: seq<EdgeKey>, o2: seq<EdgeKey>)
    requires multiset(o1) == multiset(o2)
    ensures multiset(Assemble(vl, o1)) == multiset(Assemble(vl, o2))
    decreases |o1|
  {
    if |o1| == 0 {
      assert |o2| == |multiset(o2)| == 0;
    } else {
      var a, b := RemoveKey(o1, o2);
      OrderIrrelevant(vl, o1[..|o1| - 1], a + b);
      KeyMoved(vl, a, b, o1[|o1| - 1]);
    }
  }

  /** Wherever key k sits in the order, it contributes its own triangles. */
  lemma KeyMoved(vl: map<EdgeKey, seq<Vec3>>, a: seq<EdgeKey>, b: seq<EdgeKey>, k: EdgeKey)
    ensures multiset(Assemble(vl, a + [k] + b)) == multiset(Assemble(vl, a + b)) + multiset(Chunks(Get(vl, k)))
  {
    AssembleAppend(vl, a, b);
    AssembleAppend(vl, a + [k], b);
    AssembleAppend(vl, a, [k]);
    assert Assemble(vl, [k]) == Chunks(Get(vl, k)) by {
      assert [k][..0] == [];
    }
  }
}
