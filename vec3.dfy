/** Three-component vectors over exact reals: the operators, products,
    the normalisation guard and the two list folds of the vector class. */
module Vectors {

  datatype Vec3 = Vec3(x: real, y: real, z: real)

  const Zero: Vec3 := Vec3(0.0, 0.0, 0.0)

  function Add(a: Vec3, b: Vec3): Vec3 {
    Vec3(a.x + b.x, a.y + b.y, a.z + b.z)
  }

  function Sub(a: Vec3, b: Vec3): Vec3 {
    Vec3(a.x - b.x, a.y - b.y, a.z - b.z)
  }

  function Scale(a: Vec3, s: real): Vec3 {
    Vec3(a.x * s, a.y * s, a.z * s)
  }

  /** Division by a scalar; over the reals the divisor must be non-zero. */
  function Div(a: Vec3, s: real): Vec3
    requires s != 0.0
  {
    Vec3(a.x / s, a.y / s, a.z / s)
  }

  /** Component-wise equality, as the vector class's `==` operator. */
  predicate Equal(a: Vec3, b: Vec3) {
    a.x == b.x && a.y == b.y && a.z == b.z
  }

  function Dot(a: Vec3, b: Vec3): real {
    a.x * b.x + a.y * b.y + a.z * b.z
  }

  function Cross(a: Vec3, b: Vec3): Vec3 {
    Vec3(a.y * b.z - a.z * b.y,
         a.z * b.x - a.x * b.z,
         a.x * b.y - a.y * b.x)
  }

  function Neg(a: Vec3): Vec3 {
    Vec3(-a.x, -a.y, -a.z)
  }

  /** `m` is the Euclidean length of `a`: the non-negative square root of a.a. */
  ghost predicate IsMagnitude(a: Vec3, m: real) {
    m >= 0.0 && m * m == Dot(a, a)
  }

  /** Normalisation with its zero guard; the length is supplied by the caller,
      since square roots are not part of the model. */
  function Normalize(a: Vec3, mag: real): (r: Vec3)
    requires IsMagnitude(a, mag)
    ensures mag == 0.0 ==> r == Zero
    ensures mag > 0.0 ==> r == Div(a, mag) && Dot(r, r) == 1.0
  {
    if mag > 0.0 then
      UnitAfterDivision(a, mag);
      Div(a, mag)
    else Zero
  }

  lemma UnitAfterDivision(a: Vec3, mag: real)
    requires mag > 0.0 && mag * mag == Dot(a, a)
    ensures Dot(Div(a, mag), Div(a, mag)) == 1.0
  {
    var d := Div(a, mag);
    var q := mag * mag;
    SquareOfQuotient(a.x, mag);
    SquareOfQuotient(a.y, mag);
    SquareOfQuotient(a.z, mag);
    calc {
      Dot(d, d) * q;
      (d.x * d.x) * q + (d.y * d.y) * q + (d.z * d.z) * q;
      ((a.x / mag) * (a.x / mag)) * (mag * mag)
        + ((a.y / mag) * (a.y / mag)) * (mag * mag)
        + ((a.z / mag) * (a.z / mag)) * (mag * mag);
      a.x * a.x + a.y * a.y + a.z * a.z;
      q;
    }
    calc {
      q;
      mag * mag;
    > 0.0;
    }
    CancelPositive(Dot(d, d), q);
  }

  lemma SquareOfQuotient(a: real, m: real)
    requires m != 0.0
    ensures ((a / m) * (a / m)) * (m * m) == a * a
  {
    var b := a / m;
    assert b * m == a;
    calc {
      ((a / m) * (a / m)) * (m * m);
      (b * b) * (m * m);
      (b * m) * (b * m);
      a * a;
    }
  }

  lemma CancelPositive(x: real, q: real)
    requires q > 0.0 && x * q == q
    ensures x == 1.0
  {
  }

  lemma PositiveSquare(u: real)
    requires u != 0.0
    ensures u * u > 0.0
  {
    if u > 0.0 {
    } else {
    }
  }

  /** A non-zero vector has a positive squared length. */
  lemma NonZeroDot(a: Vec3)
    requires a != Zero
    ensures Dot(a, a) > 0.0
  {
    assert a.x * a.x >= 0.0 && a.y * a.y >= 0.0 && a.z * a.z >= 0.0;
    if a.x != 0.0 {
      PositiveSquare(a.x);
      calc { Dot(a, a); a.x * a.x + (a.y * a.y + a.z * a.z); >= a.x * a.x; > 0.0; }
    } else if a.y != 0.0 {
      PositiveSquare(a.y);
      calc { Dot(a, a); a.y * a.y + (a.x * a.x + a.z * a.z); >= a.y * a.y; > 0.0; }
    } else {
      PositiveSquare(a.z);
      calc { Dot(a, a); a.z * a.z + (a.x * a.x + a.y * a.y); >= a.z * a.z; > 0.0; }
    }
  }

  /** The length is zero exactly for the zero vector, which is when the guard
      in Normalize yields the zero vector. */
  lemma MagnitudeZeroIff(a: Vec3, mag: real)
    requires IsMagnitude(a, mag)
    ensures mag == 0.0 <==> a == Zero
  {
    if mag == 0.0 {
      if a != Zero {
        NonZeroDot(a);
      }
    } else {
      PositiveSquare(mag);
      calc { Dot(a, a); mag * mag; > 0.0; }
    }
  }

  lemma SubAddCancel(a: Vec3, b: Vec3)
    ensures Add(Sub(a, b), b) == a
  {
  }

  lemma AddCommutes(a: Vec3, b: Vec3)
    ensures Add(a, b) == Add(b, a)
  {
  }

  lemma AddAssociates(a: Vec3, b: Vec3, c: Vec3)
    ensures Add(Add(a, b), c) == Add(a, Add(b, c))
  {
  }

  /** The `==` operator is exactly value equality, hence reflexive and symmetric. */
  lemma EqualIsValueEquality(a: Vec3, b: Vec3)
    ensures Equal(a, b) <==> a == b
    ensures Equal(a, a)
    ensures Equal(a, b) ==> Equal(b, a)
  {
  }

  lemma DotCommutes(a: Vec3, b: Vec3)
    ensures Dot(a, b) == Dot(b, a)
  {
  }

  lemma DotLinearLeft(a: Vec3, b: Vec3, c: Vec3, s: real)
    ensures Dot(Add(Scale(a, s), b), c) == s * Dot(a, c) + Dot(b, c)
  {
  }

  lemma DotLinearRight(a: Vec3, b: Vec3, c: Vec3, s: real)
    ensures Dot(c, Add(Scale(a, s), b)) == s * Dot(c, a) + Dot(c, b)
  {
  }

  lemma CrossAntiCommutes(a: Vec3, b: Vec3)
    ensures Cross(a, b) == Neg(Cross(b, a))
  {
  }

  lemma CrossOrthogonal(a: Vec3, b: Vec3)
    ensures Dot(a, Cross(a, b)) == 0.0
    ensures Dot(b, Cross(a, b)) == 0.0
  {
  }

  /** Sum over i < n of A[i] * B[i].x, accumulated left to right: the
      specification of both list folds. */
  function ScaledSum(A: seq<Vec3>, B: seq<Vec3>, n: nat): Vec3
    requires n <= |A| && n <= |B|
  {
    if n == 0 then Zero else Add(ScaledSum(A, B, n - 1), Scale(A[n - 1], B[n - 1].x))
  }

  /** The static list `dot`: indexes B by A's length, so B must be at least as long. */
  method ListDot(A: seq<Vec3>, B: seq<Vec3>) returns (result: Vec3)
    requires |A| <= |B|
    ensures result == ScaledSum(A, B, |A|)
  {
    result := Zero;
    var n := |A|;
    var i := 0;
    while i < n
      invariant 0 <= i <= n
      invariant result == ScaledSum(A, B, i)
    {
      result := Add(result, Scale(A[i], B[i].x));
      i := i + 1;
    }
  }

  /** The static `determinant` placeholder: the sum of A[i] * A[i].x. */
  method Determinant(A: seq<Vec3>) returns (result: Vec3)
    ensures result == ScaledSum(A, A, |A|)
  {
    result := Zero;
    for i := 0 to |A|
      invariant result == ScaledSum(A, A, i)
    {
      result := Add(result, Scale(A[i], A[i].x));
    }
  }

  /** Only the first n entries of either list take part in the fold. */
  lemma {:induction false} ScaledSumPrefix(A: seq<Vec3>, B: seq<Vec3>, n: nat)
    requires n <= |A| && n <= |B|
    ensures ScaledSum(A, B, n) == ScaledSum(A[..n], B[..n], n)
  {
    if n > 0 {
      ScaledSumAgree(A, B, A[..n], B[..n], n);
    }
  }

  lemma {:induction false} ScaledSumAgree(A: seq<Vec3>, B: seq<Vec3>, A': seq<Vec3>, B': seq<Vec3>, n: nat)
    requires n <= |A| && n <= |B| && n <= |A'| && n <= |B'|
    requires A[..n] == A'[..n] && B[..n] == B'[..n]
    ensures ScaledSum(A, B, n) == ScaledSum(A', B', n)
  {
    if n > 0 {
      assert A[..n - 1] == A'[..n - 1] by { assert A[..n - 1] == A[..n][..n - 1]; assert A'[..n - 1] == A'[..n][..n - 1]; }
      assert B[..n - 1] == B'[..n - 1] by { assert B[..n - 1] == B[..n][..n - 1]; assert B'[..n - 1] == B'[..n][..n - 1]; }
      assert A[n - 1] == A[..n][n - 1] == A'[n - 1];
      assert B[n - 1] == B[..n][n - 1] == B'[n - 1];
      ScaledSumAgree(A, B, A', B', n - 1);
    }
  }

  /** Folding a concatenation is the sum of the two folds. */
  lemma {:induction false} ScaledSumAppend(A: seq<Vec3>, B: seq<Vec3>, A': seq<Vec3>, B': seq<Vec3>)
    requires |A| == |B| && |A'| == |B'|
    ensures ScaledSum(A + A', B + B', |A| + |A'|) == Add(ScaledSum(A, B, |A|), ScaledSum(A', B', |A'|))
  {
    if |A'| == 0 {
      assert A + A' == A && B + B' == B;
    } else {
      var k := |A'| - 1;
      assert (A + A')[..|A| + k] == (A + A'[..k])[..|A| + k];
      assert (B + B')[..|B| + k] == (B + B'[..k])[..|B| + k];
      ScaledSumAgree(A + A', B + B', A + A'[..k], B + B'[..k], |A| + k);
      ScaledSumAgree(A', B', A'[..k], B'[..k], k);
      ScaledSumAppend(A, B, A'[..k], B'[..k]);
      assert (A + A')[|A| + k] == A'[k];
      assert (B + B')[|B| + k] == B'[k];
      AddAssociates(ScaledSum(A, B, |A|), ScaledSum(A'[..k], B'[..k], k), Scale(A'[k], B'[k].x));
    }
  }

  /** The x-component of the determinant placeholder is a sum of squares. */
  lemma {:induction false} DeterminantXNonNegative(A: seq<Vec3>, n: nat)
    requires n <= |A|
    ensures ScaledSum(A, A, n).x >= 0.0
  {
    if n > 0 {
      DeterminantXNonNegative(A, n - 1);
      assert A[n - 1].x * A[n - 1].x >= 0.0;
    }
  }
}
