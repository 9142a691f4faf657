/** Vector arithmetic of internal/index/index.go, over exact reals.
    The square root is a parameter, known only through `IsSqrt`. */
module Vectors {
  import opened Results

  type Vector = seq<real>

  datatype VectorError = EmptyVector | ZeroNorm

  /** `f` is the non-negative square root. */
  ghost predicate IsSqrt(f: real -> real) {
    forall x: real :: x >= 0.0 ==> f(x) >= 0.0 && f(x) * f(x) == x
  }

  /** Sum of the first n coordinate products. */
  ghost function DotTo(a: Vector, b: Vector, n: nat): real
    requires n <= |a| && n <= |b|
  {
    if n == 0 then 0.0 else DotTo(a, b, n - 1) + a[n - 1] * b[n - 1]
  }

  /** The dot product over the common length. */
  ghost function Dot(a: Vector, b: Vector): real {
    DotTo(a, b, if |a| <= |b| then |a| else |b|)
  }

  ghost predicate IsZero(v: Vector) {
    forall i :: 0 <= i < |v| ==> v[i] == 0.0
  }

  /** Why a vector has no usable norm: it is empty, or zero in every coordinate. */
  ghost function VectorFault(v: Vector): Option<VectorError> {
    if v == [] then Some(EmptyVector) else if IsZero(v) then Some(ZeroNorm) else None
  }

  /** Cosine similarity of two vectors whose norms are given. */
  ghost function Cosine(a: Vector, aNorm: real, b: Vector, bNorm: real): real {
    if aNorm * bNorm == 0.0 then 0.0 else Dot(a, b) / (aNorm * bNorm)
  }

  /** The square is named so that the solver keeps its sign apart from its value. */
  lemma SquareSign(x: real, square: real)
    requires square == x * x
    ensures x != 0.0 ==> square > 0.0
    ensures x == 0.0 ==> square == 0.0
  {
    if x > 0.0 {
      ProductSign(x, x, square);
    } else if x < 0.0 {
      assert square == (-x) * (-x);
      ProductSign(-x, -x, square);
    }
  }

  lemma ProductSign(x: real, y: real, product: real)
    requires x > 0.0 && y > 0.0 && product == x * y
    ensures product > 0.0
  {
  }

  /** A sum of squares is never negative and vanishes only on the zero vector. */
  lemma {:induction false} SumOfSquares(v: Vector, n: nat)
    requires n <= |v|
    ensures DotTo(v, v, n) >= 0.0
    ensures DotTo(v, v, n) > 0.0 <==> !IsZero(v[..n])
  {
    if n > 0 {
      SumOfSquares(v, n - 1);
      var x := v[n - 1];
      SquareSign(x, x * x);
      if x != 0.0 {
        assert v[..n][n - 1] == x;
      } else {
        assert v[..n] == v[..n - 1] + [x];
      }
    }
  }

  /** The length check, the accumulation and the zero check of a vector's norm: the two error
      cases are exactly the empty and the all-zero vector. */
  method VectorNorm(sqrt: real -> real, v: Vector) returns (r: Result<real, VectorError>)
    requires IsSqrt(sqrt)
    ensures VectorFault(v).Some? ==> r == Err(VectorFault(v).value)
    ensures VectorFault(v).None? ==>
              r.Ok? && r.value > 0.0 && r.value * r.value == Dot(v, v) && r.value == sqrt(Dot(v, v))
    ensures r == Err(EmptyVector) <==> |v| == 0
    ensures r == Err(ZeroNorm) <==> |v| > 0 && forall i :: 0 <= i < |v| ==> v[i] == 0.0
  {
    if |v| == 0 {
      return Err(EmptyVector);
    }
    var sum := 0.0;
    for i := 0 to |v|
      invariant sum == DotTo(v, v, i)
    {
      sum := sum + v[i] * v[i];
    }
    SumOfSquares(v, |v|);
    assert v[..|v|] == v;
    var norm := sqrt(sum);
    assert norm >= 0.0 && norm * norm == sum;
    SquareSign(norm, sum);
    if norm == 0.0 {
      return Err(ZeroNorm);
    }
    return Ok(norm);
  }

  /** The scoring loop. It indexes the second vector by the positions of the first. */
  method CosineSimilarity(a: Vector, aNorm: real, b: Vector, bNorm: real) returns (s: real)
    requires |a| <= |b|
    requires aNorm > 0.0 && bNorm > 0.0
    ensures s == Cosine(a, aNorm, b, bNorm)
    ensures s * (aNorm * bNorm) == Dot(a, b)
  {
    var dot := 0.0;
    for i := 0 to |a|
      invariant dot == DotTo(a, b, i)
    {
      dot := dot + a[i] * b[i];
    }
    s := dot / (aNorm * bNorm);
    Quotient(dot, aNorm * bNorm);
  }

  lemma Quotient(x: real, y: real)
    requires y != 0.0
    ensures x / y * y == x
  {
  }

  lemma {:induction false} DotToOfPrefix(a: Vector, b: Vector, a': Vector, b': Vector, n: nat)
    requires n <= |a| && n <= |b| && n <= |a'| && n <= |b'| && a[..n] == a'[..n] && b[..n] == b'[..n]
    ensures DotTo(a, b, n) == DotTo(a', b', n)
  {
    if n > 0 {
      assert a[..n][n - 1] == a'[..n][n - 1] && b[..n][n - 1] == b'[..n][n - 1];
      assert a[..n - 1] == a[..n][..n - 1] && b[..n - 1] == b[..n][..n - 1];
      assert a'[..n - 1] == a'[..n][..n - 1] && b'[..n - 1] == b'[..n][..n - 1];
      DotToOfPrefix(a, b, a', b', n - 1);
    }
  }

  /** The dot product adds up the products of the coordinates at equal positions, and coordinates of the second
      vector past the end of the first do not matter. */
  lemma DotAppend(a: Vector, b: Vector, x: real, y: real, more: Vector)
    requires |a| == |b|
    ensures Dot([], more) == 0.0
    ensures Dot(a + [x], b + [y]) == Dot(a, b) + x * y
    ensures Dot(a, b + more) == Dot(a, b)
  {
    DotToOfPrefix(a + [x], b + [y], a, b, |a|);
    DotToOfPrefix(a, b + more, a, b, |a|);
  }

  lemma {:induction false} DotToSymmetric(a: Vector, b: Vector, n: nat)
    requires n <= |a| && n <= |b|
    ensures DotTo(a, b, n) == DotTo(b, a, n)
  {
    if n > 0 {
      DotToSymmetric(a, b, n - 1);
    }
  }

  /** Similarity does not depend on which of the two vectors is the query. */
  lemma CosineSymmetric(a: Vector, aNorm: real, b: Vector, bNorm: real)
    ensures Cosine(a, aNorm, b, bNorm) == Cosine(b, bNorm, a, aNorm)
  {
    DotToSymmetric(a, b, if |a| <= |b| then |a| else |b|);
    assert aNorm * bNorm == bNorm * aNorm;
  }

  /** A vector is perfectly similar to itself. */
  lemma CosineSelf(v: Vector, norm: real)
    requires norm > 0.0 && norm * norm == Dot(v, v)
    ensures Cosine(v, norm, v, norm) == 1.0
  {
    var d := norm * norm;
    SquareSign(norm, d);
    assert d > 0.0;
    assert d / d == 1.0;
  }
}
