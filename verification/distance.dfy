/**
  The reference distance kernels of the library: squared L2 distance, squared
  L2 norm and inner product over the first d components of two vectors, and
  the scalar fallbacks that the index uses when no vector instructions are
  available. Float arithmetic is abstracted to `real`.
*/
module Distance {

  /** The square of one component or component difference. */
  function Sq(a: real): real
  {
    a * a
  }

  /** Sum over i < d of (x[i] - y[i])^2. */
  function SumSqDiff(x: seq<real>, y: seq<real>, d: nat): real
    requires d <= |x| && d <= |y|
  {
    if d == 0 then 0.0
    else SumSqDiff(x, y, d - 1) + Sq(x[d - 1] - y[d - 1])
  }

  /** Sum over i < d of x[i]^2. */
  function SumSq(x: seq<real>, d: nat): real
    requires d <= |x|
  {
    if d == 0 then 0.0 else SumSq(x, d - 1) + Sq(x[d - 1])
  }

  /** Sum over i < d of x[i] * y[i]. */
  function Dot(x: seq<real>, y: seq<real>, d: nat): real
    requires d <= |x| && d <= |y|
  {
    if d == 0 then 0.0 else Dot(x, y, d - 1) + x[d - 1] * y[d - 1]
  }

  /** The vector of d zero components. */
  function Zeros(d: nat): (z: seq<real>)
    ensures |z| == d
  {
    seq(d, _ => 0.0)
  }

  /** fvecL2sqrRef: one left-to-right pass accumulating squared differences. */
  method L2SqrRef(x: seq<real>, y: seq<real>, d: nat) returns (res: real)
    requires d <= |x| && d <= |y|
    ensures res == SumSqDiff(x, y, d)
  {
    res := 0.0;
    var i := 0;
    while i < d
      invariant i <= d
      invariant res == SumSqDiff(x, y, i)
    {
      var tmp := x[i] - y[i];
      res := res + Sq(tmp);
      i := i + 1;
    }
  }

  /** fvecNormL2sqrRef: one pass accumulating squared components. */
  method NormL2SqrRef(x: seq<real>, d: nat) returns (res: real)
    requires d <= |x|
    ensures res == SumSq(x, d)
  {
    res := 0.0;
    var i := 0;
    while i < d
      invariant i <= d
      invariant res == SumSq(x, i)
    {
      res := res + Sq(x[i]);
      i := i + 1;
    }
  }

  /** fvec_inner_product_ref: one pass accumulating componentwise products. */
  method InnerProductRef(x: seq<real>, y: seq<real>, d: nat) returns (res: real)
    requires d <= |x| && d <= |y|
    ensures res == Dot(x, y, d)
  {
    res := 0.0;
    var i := 0;
    while i < d
      invariant i <= d
      invariant res == Dot(x, y, i)
    {
      res := res + x[i] * y[i];
      i := i + 1;
    }
  }

  /** Scalar fallback fvecL2sqr: the reference squared distance, never negative. */
  method L2Sqr(x: seq<real>, y: seq<real>, d: nat) returns (res: real)
    requires d <= |x| && d <= |y|
    ensures res == SumSqDiff(x, y, d)
    ensures res >= 0.0
  {
    res := L2SqrRef(x, y, d);
    SumSqDiffNonNegative(x, y, d);
  }

  /** Scalar fallback fvecInnerProduct: the reference inner product. */
  method InnerProduct(x: seq<real>, y: seq<real>, d: nat) returns (res: real)
    requires d <= |x| && d <= |y|
    ensures res == Dot(x, y, d)
    ensures res == Dot(y, x, d)
  {
    res := InnerProductRef(x, y, d);
    DotSymmetric(x, y, d);
  }

  /** Scalar fallback fvecNormL2sqr: the reference squared norm, never negative. */
  method NormL2Sqr(x: seq<real>, d: nat) returns (res: real)
    requires d <= |x|
    ensures res == SumSq(x, d)
    ensures res == Dot(x, x, d)
    ensures res >= 0.0
  {
    res := NormL2SqrRef(x, d);
    NormIsSelfInnerProduct(x, d);
    NormIsDistanceToOrigin(x, d);
    SumSqDiffNonNegative(x, Zeros(d), d);
  }

  lemma {:induction false} SumSqDiffNonNegative(x: seq<real>, y: seq<real>, d: nat)
    requires d <= |x| && d <= |y|
    ensures SumSqDiff(x, y, d) >= 0.0
  {
    if d > 0 {
      SumSqDiffNonNegative(x, y, d - 1);
    }
  }

  lemma {:induction false} SumSqDiffSymmetric(x: seq<real>, y: seq<real>, d: nat)
    requires d <= |x| && d <= |y|
    ensures SumSqDiff(x, y, d) == SumSqDiff(y, x, d)
  {
    if d > 0 {
      SumSqDiffSymmetric(x, y, d - 1);
      assert Sq(x[d - 1] - y[d - 1]) == Sq(y[d - 1] - x[d - 1]);
    }
  }

  /** A square is never negative, and positive away from zero. */
  lemma SquarePositive(a: real)
    ensures Sq(a) >= 0.0
    ensures a != 0.0 ==> Sq(a) > 0.0
  {
    if a > 0.0 {
      ProductPositive(a, a, Sq(a));
    } else if a < 0.0 {
      ProductPositive(-a, -a, Sq(a));
    }
  }

  lemma ProductPositive(a: real, b: real, p: real)
    requires a > 0.0 && b > 0.0 && p == a * b
    ensures p > 0.0
  {
  }

  /** The squared distance vanishes exactly when the first d components agree. */
  lemma {:induction false} SumSqDiffZeroIff(x: seq<real>, y: seq<real>, d: nat)
    requires d <= |x| && d <= |y|
    ensures SumSqDiff(x, y, d) == 0.0 <==> x[..d] == y[..d]
  {
    if d > 0 {
      var t := x[d - 1] - y[d - 1];
      SumSqDiffZeroIff(x, y, d - 1);
      SumSqDiffNonNegative(x, y, d - 1);
      SquarePositive(t);
      assert x[..d] == x[..d - 1] + [x[d - 1]];
      assert y[..d] == y[..d - 1] + [y[d - 1]];
      if x[..d] == y[..d] {
        assert x[..d - 1] == x[..d][..d - 1];
        assert y[..d - 1] == y[..d][..d - 1];
        assert x[d - 1] == x[..d][d - 1];
        assert y[d - 1] == y[..d][d - 1];
        assert t == 0.0;
        assert Sq(t) == 0.0;
      } else if x[..d - 1] == y[..d - 1] {
        assert t != 0.0;
        assert SumSqDiff(x, y, d) > 0.0;
      } else {
        assert SumSqDiff(x, y, d - 1) > 0.0;
      }
    }
  }

  /** The squared norm is the squared distance to the origin. */
  lemma {:induction false} NormIsDistanceToOrigin(x: seq<real>, d: nat)
    requires d <= |x|
    ensures SumSq(x, d) == SumSqDiff(x, Zeros(d), d)
  {
    if d > 0 {
      NormIsDistanceToOrigin(x, d - 1);
      assert SumSqDiff(x, Zeros(d), d - 1) == SumSqDiff(x, Zeros(d - 1), d - 1) by {
        SumSqDiffPrefix(x, Zeros(d), Zeros(d - 1), d - 1);
      }
    }
  }

  /** SumSqDiff only reads the first d components of its second argument. */
  lemma {:induction false} SumSqDiffPrefix(x: seq<real>, y: seq<real>, y': seq<real>, d: nat)
    requires d <= |x| && d <= |y| && d <= |y'|
    requires y[..d] == y'[..d]
    ensures SumSqDiff(x, y, d) == SumSqDiff(x, y', d)
  {
    if d > 0 {
      assert y[d - 1] == y[..d][d - 1] == y'[..d][d - 1] == y'[d - 1];
      assert y[..d - 1] == y[..d][..d - 1];
      assert y'[..d - 1] == y'[..d][..d - 1];
      SumSqDiffPrefix(x, y, y', d - 1);
    }
  }

  /** The squared norm is the inner product of a vector with itself. */
  lemma {:induction false} NormIsSelfInnerProduct(x: seq<real>, d: nat)
    requires d <= |x|
    ensures SumSq(x, d) == Dot(x, x, d)
  {
    if d > 0 {
      NormIsSelfInnerProduct(x, d - 1);
    }
  }

  lemma {:induction false} DotSymmetric(x: seq<real>, y: seq<real>, d: nat)
    requires d <= |x| && d <= |y|
    ensures Dot(x, y, d) == Dot(y, x, d)
  {
    if d > 0 {
      DotSymmetric(x, y, d - 1);
    }
  }

  /** With no components to read, every reference kernel returns zero. */
  lemma ZeroDimension(x: seq<real>, y: seq<real>)
    ensures SumSqDiff(x, y, 0) == 0.0 && SumSq(x, 0) == 0.0 && Dot(x, y, 0) == 0.0
  {
  }

  /** All vectors have the same number of components. */
  predicate Uniform(vs: seq<seq<real>>)
  {
    forall i, j | 0 <= i < |vs| && 0 <= j < |vs| :: |vs[i]| == |vs[j]|
  }

  /**
    The clustering code's squaredDistance: the squared L2 distance over the
    components of x, reading as many of y (which must be at least as long).
    It is never negative and is zero exactly when y starts with x.
  */
  function SquaredDistance(x: seq<real>, y: seq<real>): (r: real)
    requires |x| <= |y|
    ensures r >= 0.0
    ensures r == 0.0 <==> x == y[..|x|]
  {
    SumSqDiffNonNegative(x, y, |x|);
    SumSqDiffZeroIff(x, y, |x|);
    assert x[..|x|] == x;
    SumSqDiff(x, y, |x|)
  }
}
