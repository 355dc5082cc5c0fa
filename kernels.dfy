/**
 * The scalar distance and margin kernels, over real numbers.  Every sum runs
 * over the zipped prefix of its two arguments (the shorter length) and is a
 * left fold, as an iterator `sum()` and the accumulating loop compute it;
 * f32 rounding is not modelled.
 */
module Kernels {
  import opened Bytes

  /** `size_of::<i32>()` and `size_of::<f32>()`: the stride of ids and vector payload. */
  const INT32_SIZE: nat := 4
  const FLOAT32_SIZE: nat := 4

  function MinLen(u: seq<real>, v: seq<real>): nat
  {
    if |u| <= |v| then |u| else |v|
  }

  function Abs(x: real): real
  {
    if x < 0.0 then -x else x
  }

  /** `dot_product_no_simd`: the sum of u[i] * v[i]. */
  function Dot(u: seq<real>, v: seq<real>): real
    decreases |u|
  {
    var n := MinLen(u, v);
    if n == 0 then 0.0 else Dot(u[..n - 1], v[..n - 1]) + u[n - 1] * v[n - 1]
  }

  /** `euclidean_distance_no_simd`: the sum of (u[i] - v[i])^2, without the square root. */
  function Euclidean(u: seq<real>, v: seq<real>): (r: real)
    ensures r >= 0.0
    decreases |u|
  {
    var n := MinLen(u, v);
    if n == 0 then 0.0
    else Euclidean(u[..n - 1], v[..n - 1]) + (u[n - 1] - v[n - 1]) * (u[n - 1] - v[n - 1])
  }

  /** `manhattan_distance`: the sum of |u[i] - v[i]|. */
  function Manhattan(u: seq<real>, v: seq<real>): (r: real)
    ensures r >= 0.0
    decreases |u|
  {
    var n := MinLen(u, v);
    if n == 0 then 0.0 else Manhattan(u[..n - 1], v[..n - 1]) + Abs(u[n - 1] - v[n - 1])
  }

  /** `minkowski_margin`: the bias plus the dot product. */
  function MinkowskiMargin(u: seq<real>, v: seq<real>, bias: real): real
  {
    bias + Dot(u, v)
  }

  /** The dot product is symmetric. */
  lemma {:induction false} DotSymmetric(u: seq<real>, v: seq<real>)
    ensures Dot(u, v) == Dot(v, u)
    decreases |u|
  {
    var n := MinLen(u, v);
    if n > 0 {
      DotSymmetric(u[..n - 1], v[..n - 1]);
    }
  }

  /** Only the zipped prefix takes part in the dot product. */
  lemma DotZipped(u: seq<real>, v: seq<real>)
    ensures var n := MinLen(u, v); Dot(u, v) == Dot(u[..n], v[..n])
  {
    var n := MinLen(u, v);
    if n > 0 {
      assert u[..n][..n - 1] == u[..n - 1] && v[..n][..n - 1] == v[..n - 1];
    }
  }

  /** A dot product with a zero vector vanishes. */
  lemma {:induction false} DotZero(u: seq<real>, v: seq<real>)
    requires forall i :: 0 <= i < |u| ==> u[i] == 0.0
    ensures Dot(u, v) == 0.0
    decreases |u|
  {
    var n := MinLen(u, v);
    if n > 0 {
      DotZero(u[..n - 1], v[..n - 1]);
    }
  }

  /** A sum of squares is never negative. */
  lemma {:induction false} DotSelfNonNegative(u: seq<real>)
    ensures Dot(u, u) >= 0.0
    decreases |u|
  {
    if |u| > 0 {
      DotSelfNonNegative(u[..|u| - 1]);
    }
  }

  /** The Minkowski margin is symmetric in its vectors, and is the bias alone for a zero hyperplane. */
  lemma MinkowskiMarginProperties(u: seq<real>, v: seq<real>, bias: real)
    ensures MinkowskiMargin(u, v, bias) == MinkowskiMargin(v, u, bias)
    ensures (forall i :: 0 <= i < |u| ==> u[i] == 0.0) ==> MinkowskiMargin(u, v, bias) == bias
  {
    DotSymmetric(u, v);
    if forall i :: 0 <= i < |u| ==> u[i] == 0.0 {
      DotZero(u, v);
    }
  }

  /** The squared Euclidean distance is non-negative and symmetric. */
  lemma {:induction false} EuclideanNonNegativeSymmetric(u: seq<real>, v: seq<real>)
    ensures Euclidean(u, v) >= 0.0
    ensures Euclidean(u, v) == Euclidean(v, u)
    decreases |u|
  {
    var n := MinLen(u, v);
    if n > 0 {
      EuclideanNonNegativeSymmetric(u[..n - 1], v[..n - 1]);
    }
  }

  /** The squared Euclidean distance is zero exactly when the zipped prefixes agree. */
  lemma {:induction false} EuclideanZeroIff(u: seq<real>, v: seq<real>)
    ensures var n := MinLen(u, v); Euclidean(u, v) == 0.0 <==> u[..n] == v[..n]
    decreases |u|
  {
    var n := MinLen(u, v);
    if n > 0 {
      var u', v' := u[..n - 1], v[..n - 1];
      EuclideanZeroIff(u', v');
      EuclideanNonNegativeSymmetric(u', v');
      var d := u[n - 1] - v[n - 1];
      assert u[..n] == u' + [u[n - 1]] && v[..n] == v' + [v[n - 1]];
      assert MinLen(u', v') == n - 1;
      assert u'[..n - 1] == u' && v'[..n - 1] == v';
      if d != 0.0 {
        SumWithSquarePositive(Euclidean(u', v'), d);
        assert u[..n][n - 1] != v[..n][n - 1];
      }
    }
  }

  /** The Manhattan distance is non-negative and symmetric. */
  lemma {:induction false} ManhattanNonNegativeSymmetric(u: seq<real>, v: seq<real>)
    ensures Manhattan(u, v) >= 0.0
    ensures Manhattan(u, v) == Manhattan(v, u)
    decreases |u|
  {
    var n := MinLen(u, v);
    if n > 0 {
      ManhattanNonNegativeSymmetric(u[..n - 1], v[..n - 1]);
    }
  }

  /** The Manhattan distance is zero exactly when the zipped prefixes agree. */
  lemma {:induction false} ManhattanZeroIff(u: seq<real>, v: seq<real>)
    ensures var n := MinLen(u, v); Manhattan(u, v) == 0.0 <==> u[..n] == v[..n]
    decreases |u|
  {
    var n := MinLen(u, v);
    if n > 0 {
      var u', v' := u[..n - 1], v[..n - 1];
      ManhattanZeroIff(u', v');
      ManhattanNonNegativeSymmetric(u', v');
      assert u[..n] == u' + [u[n - 1]] && v[..n] == v' + [v[n - 1]];
      assert MinLen(u', v') == n - 1;
      assert u'[..n - 1] == u' && v'[..n - 1] == v';
    }
  }

  /** The Manhattan distance obeys the triangle inequality on vectors of one length. */
  lemma {:induction false} ManhattanTriangle(u: seq<real>, v: seq<real>, w: seq<real>)
    requires |u| == |v| == |w|
    ensures Manhattan(u, w) <= Manhattan(u, v) + Manhattan(v, w)
    decreases |u|
  {
    var n := |u|;
    if n > 0 {
      ManhattanTriangle(u[..n - 1], v[..n - 1], w[..n - 1]);
    }
  }

  /** Square roots as far as the angular kernel needs them: positive on positive arguments. */
  ghost predicate SqrtPositive(sqrt: real -> real)
  {
    forall x: real :: x > 0.0 ==> sqrt(x) > 0.0
  }

  /** A true square root on the positive reals. */
  ghost predicate IsSqrt(sqrt: real -> real)
  {
    forall x: real :: x > 0.0 ==> sqrt(x) > 0.0 && sqrt(x) * sqrt(x) == x
  }

  /**
   * The value of `cosine_distance_no_simd`: 2 - 2 pq / sqrt(pp qq) over the
   * zipped prefix, and exactly 2 when pp qq is not positive (a zero vector).
   */
  function Cosine(u: seq<real>, v: seq<real>, sqrt: real -> real): real
    requires SqrtPositive(sqrt)
  {
    var n := MinLen(u, v);
    Angular(Dot(u[..n], u[..n]), Dot(v[..n], v[..n]), Dot(u[..n], v[..n]), sqrt)
  }

  /** The closing step of `cosine_distance_no_simd`: the distance from the three sums pp, qq and pq. */
  function Angular(pp: real, qq: real, pq: real, sqrt: real -> real): real
    requires SqrtPositive(sqrt)
  {
    if pp * qq > 0.0 then 2.0 - 2.0 * pq / sqrt(pp * qq) else 2.0
  }

  /** `cosine_distance_no_simd`: one pass accumulating pp, qq and pq. */
  method CosineDistance(u: seq<real>, v: seq<real>, sqrt: real -> real) returns (d: real)
    requires SqrtPositive(sqrt)
    ensures d == Cosine(u, v, sqrt)
  {
    var n := MinLen(u, v);
    var pp, qq, pq := 0.0, 0.0, 0.0;
    for i := 0 to n
      invariant pp == Dot(u[..i], u[..i])
      invariant qq == Dot(v[..i], v[..i])
      invariant pq == Dot(u[..i], v[..i])
    {
      assert u[..i + 1][..i] == u[..i] && v[..i + 1][..i] == v[..i];
      pp := pp + u[i] * u[i];
      qq := qq + v[i] * v[i];
      pq := pq + u[i] * v[i];
    }
    d := Angular(pp, qq, pq, sqrt);
  }

  /** The degenerate case: against a zero vector the angular distance is the maximal 2. */
  lemma CosineZeroVector(u: seq<real>, v: seq<real>, sqrt: real -> real)
    requires SqrtPositive(sqrt)
    requires forall i :: 0 <= i < |u| ==> u[i] == 0.0
    ensures Cosine(u, v, sqrt) == 2.0
  {
    var n := MinLen(u, v);
    DotZero(u[..n], u[..n]);
  }

  /** The angular distance is symmetric, so a zero vector on either side gives 2. */
  lemma CosineSymmetric(u: seq<real>, v: seq<real>, sqrt: real -> real)
    requires SqrtPositive(sqrt)
    ensures Cosine(u, v, sqrt) == Cosine(v, u, sqrt)
  {
    var n := MinLen(u, v);
    assert n == MinLen(v, u);
    DotSymmetric(u[..n], v[..n]);
  }

  /** With an exact square root, a non-zero vector is at angular distance 0 from itself. */
  lemma CosineSelf(u: seq<real>, sqrt: real -> real)
    requires IsSqrt(sqrt)
    requires exists i :: 0 <= i < |u| && u[i] != 0.0
    ensures Cosine(u, u, sqrt) == 0.0
  {
    assert u[..|u|] == u;
    var pp := Dot(u, u);
    SumOfSquaresPositive(u);
    SquarePositive(pp);
    assert pp * pp > 0.0;
    assert SqrtPositive(sqrt);
    var s := sqrt(pp * pp);
    assert s > 0.0;
    assert s * s == pp * pp;
    PositiveRootUnique(s, pp);
    assert MinLen(u, u) == |u|;
    assert Cosine(u, u, sqrt) == 2.0 - 2.0 * Dot(u, u) / sqrt(pp * pp);
    assert 2.0 * pp / s == 2.0;
  }

  /** Two positive numbers with equal squares are equal. */
  lemma PositiveRootUnique(s: real, p: real)
    requires s > 0.0 && p > 0.0 && s * s == p * p
    ensures s == p
  {
    assert (s - p) * (s + p) == 0.0;
    if s != p {
      ProductNonZero(s - p, s + p);
    }
  }

  /** A vector with a non-zero coordinate has a positive sum of squares. */
  lemma {:induction false} SumOfSquaresPositive(u: seq<real>)
    requires exists i :: 0 <= i < |u| && u[i] != 0.0
    ensures Dot(u, u) > 0.0
    decreases |u|
  {
    var n := |u|;
    var u' := u[..n - 1];
    assert Dot(u, u) == Dot(u', u') + u[n - 1] * u[n - 1];
    DotSelfNonNegative(u');
    var k :| 0 <= k < n && u[k] != 0.0;
    if k < n - 1 {
      assert u'[k] != 0.0;
      SumOfSquaresPositive(u');
    } else {
      SumWithSquarePositive(Dot(u', u'), u[n - 1]);
    }
  }

  lemma SquarePositive(d: real)
    requires d != 0.0
    ensures d * d > 0.0
  {
    if d < 0.0 {
      assert d * d == (-d) * (-d);
    }
  }

  /** A non-negative number plus a non-zero square is positive. */
  lemma SumWithSquarePositive(a: real, d: real)
    requires a >= 0.0 && d != 0.0
    ensures a + d * d > 0.0
  {
    SquarePositive(d);
    AddProduct(a, d, d);
  }

  lemma AddProduct(a: real, x: real, y: real)
    requires a >= 0.0 && x * y > 0.0
    ensures a + x * y > 0.0
  {
  }

  lemma ProductNonZero(a: real, b: real)
    requires a != 0.0 && b != 0.0
    ensures a * b != 0.0
  {
  }

  /** `get_nth_descendant_id`: the n-th id after the node's children offset, cast to usize. */
  function NthDescendantId(buf: seq<byte>, nodeOffset: nat, offsetBeforeChildren: nat, n: nat): nat
    requires nodeOffset + offsetBeforeChildren + n * INT32_SIZE + 4 <= |buf|
  {
    ToUsize(ReadI32(buf, nodeOffset + offsetBeforeChildren + n * INT32_SIZE))
  }

  /** The n-th descendant id is the n-th element of the descendant id slice. */
  lemma NthDescendantInSlice(buf: seq<byte>, nodeOffset: nat, offsetBeforeChildren: nat, n: nat, len: nat)
    requires n < len && nodeOffset + offsetBeforeChildren + 4 * len <= |buf|
    ensures NthDescendantId(buf, nodeOffset, offsetBeforeChildren, n)
            == ToUsize(ReadI32Slice(buf, nodeOffset + offsetBeforeChildren, len)[n])
  {
  }
}
