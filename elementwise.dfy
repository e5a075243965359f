/** The elementwise meaning of the dense buffer operations, on the first
    `size` elements of a buffer: what `fill`, `zero`, `scale`, `divideBy`,
    `multiplyWith`, `add` and `dot` compute (dense_vector.h:32-53,
    dense_vector.cpp, dense_matrix.cpp). BLAS's `cblas_ddot` and
    `cblas_dscal` are given these meanings; doubles are modelled as reals. */
module Elementwise {

  /** n copies of `value`. */
  function Filled(n: nat, value: real): (r: seq<real>)
    ensures |r| == n && forall k :: 0 <= k < n ==> r[k] == value
  {
    seq(n, _ => value)
  }

  /** The first |a| elements of a, each times the matching element of b. */
  function Product(a: seq<real>, b: seq<real>): (r: seq<real>)
    requires |b| >= |a|
    ensures |r| == |a| && forall k :: 0 <= k < |a| ==> r[k] == a[k] * b[k]
  {
    seq(|a|, k requires 0 <= k < |a| => a[k] * b[k])
  }

  /** Every divisor among the first n elements is nonzero. */
  predicate NonzeroPrefix(b: seq<real>, n: nat)
    requires n <= |b|
  {
    forall k :: 0 <= k < n ==> b[k] != 0.0
  }

  /** The first |a| elements of a, each divided by the matching element of
      b. */
  function Quotient(a: seq<real>, b: seq<real>): (r: seq<real>)
    requires |b| >= |a| && NonzeroPrefix(b, |a|)
    ensures |r| == |a| && forall k :: 0 <= k < |a| ==> r[k] * b[k] == a[k]
  {
    seq(|a|, k requires 0 <= k < |a| => a[k] / b[k])
  }

  /** Every element times alpha. */
  function Scaled(a: seq<real>, alpha: real): (r: seq<real>)
    ensures |r| == |a| && forall k :: 0 <= k < |a| ==> r[k] == alpha * a[k]
  {
    seq(|a|, k requires 0 <= k < |a| => alpha * a[k])
  }

  /** Element `index` increased by `value`, the others as they were. */
  function AddAt(a: seq<real>, index: nat, value: real): (r: seq<real>)
    requires index < |a|
    ensures |r| == |a| && r[index] == a[index] + value
    ensures forall k :: 0 <= k < |a| && k != index ==> r[k] == a[k]
  {
    a[index := a[index] + value]
  }

  /** The sum of a[k] * b[k] over the first |a| elements, added in index
      order; it is 0 when b is zero there. */
  function Dot(a: seq<real>, b: seq<real>): (d: real)
    requires |b| >= |a|
    ensures (forall k :: 0 <= k < |a| ==> b[k] == 0.0) ==> d == 0.0
  {
    if |a| == 0 then 0.0 else Dot(a[..|a| - 1], b) + a[|a| - 1] * b[|a| - 1]
  }

  /** Only the first |a| elements of b take part. */
  lemma {:induction false} DotIgnoresExcess(a: seq<real>, b: seq<real>, b2: seq<real>)
    requires |b| >= |a| && |b2| >= |a| && b[..|a|] == b2[..|a|]
    ensures Dot(a, b) == Dot(a, b2)
  {
    if |a| > 0 {
      var n := |a| - 1;
      assert a[..n][..] == a[..n];
      assert b[..n] == b[..|a|][..n] == b2[..|a|][..n] == b2[..n];
      DotIgnoresExcess(a[..n], b, b2);
      assert b[n] == b[..|a|][n] == b2[n];
    }
  }

  /** Dot is symmetric on buffers of one size. */
  lemma {:induction false} DotSymmetric(a: seq<real>, b: seq<real>)
    requires |a| == |b|
    ensures Dot(a, b) == Dot(b, a)
  {
    if |a| > 0 {
      var n := |a| - 1;
      DotIgnoresExcess(a[..n], b, b[..n]);
      DotIgnoresExcess(b[..n], a, a[..n]);
      DotSymmetric(a[..n], b[..n]);
    }
  }

  /** Scaling one side scales the dot product. */
  lemma {:induction false} DotScaled(a: seq<real>, b: seq<real>, alpha: real)
    requires |b| >= |a|
    ensures Dot(Scaled(a, alpha), b) == alpha * Dot(a, b)
  {
    if |a| > 0 {
      var n := |a| - 1;
      assert Scaled(a, alpha)[..n] == Scaled(a[..n], alpha) by {
        forall k | 0 <= k < n
          ensures Scaled(a, alpha)[..n][k] == Scaled(a[..n], alpha)[k]
        {
          assert a[..n][k] == a[k];
        }
      }
      DotScaled(a[..n], b, alpha);
    }
  }

  /** Adding to one element changes the dot product by that amount times
      the partner element. */
  lemma {:induction false} DotAddAt(a: seq<real>, b: seq<real>, index: nat, value: real)
    requires |b| >= |a| && index < |a|
    ensures Dot(AddAt(a, index, value), b) == Dot(a, b) + value * b[index]
  {
    var n := |a| - 1;
    var r := AddAt(a, index, value);
    if index == n {
      assert r[..n] == a[..n];
    } else {
      assert r[..n] == AddAt(a[..n], index, value);
      DotAddAt(a[..n], b, index, value);
    }
  }

  /** A zero buffer is orthogonal to everything. */
  lemma {:induction false} DotFilledZero(n: nat, b: seq<real>)
    requires |b| >= n
    ensures Dot(Filled(n, 0.0), b) == 0.0
  {
    if n > 0 {
      assert Filled(n, 0.0)[..n - 1] == Filled(n - 1, 0.0);
      DotFilledZero(n - 1, b);
    }
  }

  /** Dividing by b and then multiplying by b gives the buffer back: the two
      elementwise operations undo each other. */
  lemma ProductOfQuotient(a: seq<real>, b: seq<real>)
    requires |b| >= |a| && NonzeroPrefix(b, |a|)
    ensures Product(Quotient(a, b), b) == a
  {
  }

  /** Multiplying by b and then dividing by b gives the buffer back. */
  lemma QuotientOfProduct(a: seq<real>, b: seq<real>)
    requires |b| >= |a| && NonzeroPrefix(b, |a|)
    ensures Quotient(Product(a, b), b) == a
  {
    var q := Quotient(Product(a, b), b);
    forall k | 0 <= k < |a|
      ensures q[k] == a[k]
    {
      assert q[k] * b[k] == a[k] * b[k];
    }
  }

  /** A buffer's dot product with itself is a sum of squares, so never
      negative: what lets `length` take its square root. */
  lemma {:induction false} DotSelfNonnegative(a: seq<real>)
    ensures Dot(a, a) >= 0.0
  {
    if |a| > 0 {
      var n := |a| - 1;
      DotIgnoresExcess(a[..n], a, a[..n]);
      DotSelfNonnegative(a[..n]);
    }
  }
}
