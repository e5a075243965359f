/** The dense vector of dense_vector.h / dense_vector.cpp (declared as
    `CholmodDenseVector` at dense_vector.h:19 and defined as `DenseVector`
    in dense_vector.cpp; one class here). The `cholmod_dense` handle `x` is
    modelled by its value buffer, null once moved from or destroyed. */
module DenseVectors {
  import opened Elementwise
  import opened Backend

  class DenseVector {
    var x: array?<real>
    var size: nat

    /** A live handle has room for `size` values; a null handle has size 0. */
    ghost predicate Valid()
      reads this
    {
      (x == null ==> size == 0) && (x != null ==> size <= x.Length)
    }

    /** The `size` values the operations act on. */
    ghost function Elements(): seq<real>
      reads this, x
      requires Valid()
    {
      if x == null then [] else x[..size]
    }

    /** DenseVector(size): a fresh handle of `size` values. */
    constructor (size: nat)
      ensures Valid() && x != null && fresh(x) && x.Length == size && this.size == size
    {
      x := new real[size];
      this.size := size;
    }

    /** DenseVector(x, size): adopts a handle made elsewhere (a solve
        result). */
    constructor FromHandle(x: array<real>, size: nat)
      requires size <= x.Length
      ensures Valid() && this.x == x && this.size == size
    {
      this.x := x;
      this.size := size;
    }

    /** The move constructor: takes the handle and the size, and leaves the
        source with a null handle and size 0. */
    constructor Move(move: DenseVector)
      requires move.Valid()
      modifies move
      ensures Valid() && move.Valid()
      ensures x == old(move.x) && size == old(move.size)
      ensures move.x == null && move.size == 0
    {
      x := move.x;
      size := move.size;
      new;
      move.x := null;
      move.size := 0;
    }

    /** Move assignment: unless it is a self-assignment, frees its own
        handle when it has one, adopts the source's and leaves the source
        empty. */
    method MoveAssign(other: DenseVector, common: Common)
      requires Valid() && other.Valid()
      modifies this, other, common
      ensures Valid() && other.Valid()
      ensures other == this ==> x == old(x) && size == old(size) && common.freed == old(common.freed)
      ensures other != this ==>
        && x == old(other.x) && size == old(other.size)
        && other.x == null && other.size == 0
        && common.freed == old(common.freed) + (if old(x) == null then [] else [old(x)])
    {
      if other != this {
        if x != null {
          common.Free(x);
        }
        x := other.x;
        size := other.size;
        other.x := null;
        other.size := 0;
      }
    }

    /** The destructor: frees the handle only when there is one. */
    method Destroy(common: Common)
      requires Valid()
      modifies this, common
      ensures x == null
      ensures common.freed == old(common.freed) + (if old(x) == null then [] else [old(x)])
    {
      if x != null {
        common.Free(x);
        x := null;
      }
    }

    function GetSize(): (n: nat)
      reads this
      ensures n == size
      ensures Valid() ==> (x == null ==> n == 0) && (x != null ==> n <= x.Length)
    {
      size
    }

    /** zero: memset of the `size` values. */
    method Zero()
      requires Valid() && x != null
      modifies x
      ensures x[..size] == Filled(size, 0.0)
      ensures forall k :: size <= k < x.Length ==> x[k] == old(x[k])
    {
      forall k | 0 <= k < size {
        x[k] := 0.0;
      }
    }

    /** fill(value): every one of the `size` values becomes `value`. */
    method Fill(value: real)
      requires Valid() && x != null
      modifies x
      ensures x[..size] == Filled(size, value)
      ensures forall k :: size <= k < x.Length ==> x[k] == old(x[k])
    {
      var data := x;
      var i := 0;
      while i < size
        invariant 0 <= i <= size
        invariant forall k :: 0 <= k < i ==> data[k] == value
        invariant forall k :: i <= k < data.Length ==> data[k] == old(data[k])
      {
        data[i] := value;
        i := i + 1;
      }
    }

    /** scale(alpha) (cblas_dscal): every value times alpha. */
    method Scale(alpha: real)
      requires Valid() && x != null
      modifies x
      ensures x[..size] == Scaled(old(x[..size]), alpha)
      ensures forall k :: size <= k < x.Length ==> x[k] == old(x[k])
    {
      forall k | 0 <= k < size {
        x[k] := alpha * x[k];
      }
      assert forall k :: 0 <= k < size ==> x[..size][k] == Scaled(old(x[..size]), alpha)[k];
    }

    /** dot(b) (cblas_ddot): the sum of this[k] * b[k] over this vector's
        size, so b's excess takes no part; it is symmetric
        between buffers of one size, and a buffer's dot with itself is not
        negative. */
    function Dot(b: DenseVector): (d: real)
      reads this, x, b, b.x
      requires Valid() && b.Valid() && x != null && b.x != null && b.size >= size
      ensures d == Elementwise.Dot(Elements(), b.Elements())
      ensures b.size == size ==> d == Elementwise.Dot(b.Elements(), Elements())
      ensures b == this ==> d >= 0.0
    {
      DotIgnoresExcess(x[..size], b.x[..size], b.x[..b.size]);
      DotSelfNonnegative(x[..size]);
      var d := Elementwise.Dot(x[..size], b.x[..size]);
      if b.size == size then DotSymmetric(x[..size], b.x[..size]); d else d
    }

    /** divideBy(b): this[k] / b[k] for k < size; b's excess is ignored and
        b itself is left alone (unless b is this vector). */
    method DivideBy(b: DenseVector)
      requires Valid() && b.Valid() && x != null && b.x != null
      requires b.size >= size && NonzeroPrefix(b.x[..b.size], size)
      modifies x
      ensures x[..size] == Quotient(old(x[..size]), old(b.x[..size]))
      ensures forall k :: size <= k < x.Length ==> x[k] == old(x[k])
      ensures b.x != x ==> b.x[..] == old(b.x[..])
    {
      var thisData := x;
      var bData := b.x;
      ghost var divisors := bData[..size];
      var i := 0;
      while i < size
        invariant 0 <= i <= size
        invariant forall k :: 0 <= k < i ==> thisData[k] == old(thisData[k]) / divisors[k]
        invariant forall k :: i <= k < thisData.Length ==> thisData[k] == old(thisData[k])
        invariant bData != thisData ==> bData[..] == old(bData[..])
      {
        assert bData[i] == divisors[i];
        thisData[i] := thisData[i] / bData[i];
        i := i + 1;
      }
    }

    /** multiplyWith(b): this[k] * b[k] for k < size; b is left alone
        (unless b is this vector). */
    method MultiplyWith(b: DenseVector)
      requires Valid() && b.Valid() && x != null && b.x != null && b.size >= size
      modifies x
      ensures x[..size] == Product(old(x[..size]), old(b.x[..size]))
      ensures forall k :: size <= k < x.Length ==> x[k] == old(x[k])
      ensures b.x != x ==> b.x[..] == old(b.x[..])
    {
      var thisData := x;
      var bData := b.x;
      ghost var factors := bData[..size];
      var i := 0;
      while i < size
        invariant 0 <= i <= size
        invariant forall k :: 0 <= k < i ==> thisData[k] == old(thisData[k]) * factors[k]
        invariant forall k :: i <= k < thisData.Length ==> thisData[k] == old(thisData[k])
        invariant bData != thisData ==> bData[..] == old(bData[..])
      {
        assert bData[i] == factors[i];
        thisData[i] := thisData[i] * bData[i];
        i := i + 1;
      }
      assert forall k :: 0 <= k < size ==> x[..size][k] == Product(old(x[..size]), factors)[k];
    }

    /** copyTo(dest) (memcpy): dest's first `size` values become this
        vector's; the rest of dest, and this vector, are untouched. */
    method CopyTo(dest: DenseVector)
      requires Valid() && dest.Valid() && x != null && dest.x != null
      requires dest.size >= size && dest.x != x
      modifies dest.x
      ensures dest.x[..size] == x[..size]
      ensures forall k :: size <= k < dest.x.Length ==> dest.x[k] == old(dest.x[k])
    {
      forall k | 0 <= k < size {
        dest.x[k] := x[k];
      }
    }

    /** set(float*): copies `size` values in, one per loop step (float to
        double widening is exact). */
    method SetFloats(inData: seq<real>)
      requires Valid() && x != null && |inData| >= size
      modifies x
      ensures x[..size] == inData[..size]
      ensures forall k :: size <= k < x.Length ==> x[k] == old(x[k])
    {
      var data := x;
      var i := 0;
      while i < size
        invariant 0 <= i <= size
        invariant forall k :: 0 <= k < i ==> data[k] == inData[k]
        invariant forall k :: i <= k < data.Length ==> data[k] == old(data[k])
      {
        data[i] := inData[i];
        i := i + 1;
      }
    }

    /** set(double*) (memcpy): the first `size` values of `data`. */
    method Set(data: seq<real>)
      requires Valid() && x != null && |data| >= size
      modifies x
      ensures x[..size] == data[..size]
      ensures forall k :: size <= k < x.Length ==> x[k] == old(x[k])
    {
      forall k | 0 <= k < size {
        x[k] := data[k];
      }
    }

    /** get(double*) (memcpy): writes the `size` values out and nothing
        else. */
    method Get(outData: array<real>)
      requires Valid() && x != null && outData.Length >= size && outData != x
      modifies outData
      ensures outData[..size] == x[..size]
      ensures forall k :: size <= k < outData.Length ==> outData[k] == old(outData[k])
    {
      forall k | 0 <= k < size {
        outData[k] := x[k];
      }
    }

    /** get(float*): writes the `size` values out, one per loop step. */
    method GetFloats(outData: array<real>)
      requires Valid() && x != null && outData.Length >= size && outData != x
      modifies outData
      ensures outData[..size] == x[..size]
      ensures forall k :: size <= k < outData.Length ==> outData[k] == old(outData[k])
    {
      var data := x;
      var i := 0;
      while i < size
        invariant 0 <= i <= size
        invariant forall k :: 0 <= k < i ==> outData[k] == data[k]
        invariant forall k :: i <= k < outData.Length ==> outData[k] == old(outData[k])
      {
        outData[i] := data[i];
        i := i + 1;
      }
    }

    /** add(index, value): element `index` grows by `value`, no other
        element changes. */
    method Add(index: nat, value: real)
      requires Valid() && x != null && index < size
      modifies x
      ensures x[..size] == AddAt(old(x[..size]), index, value)
      ensures x[..] == old(x[..])[index := old(x[index]) + value]
    {
      x[index] := x[index] + value;
    }

    /** operator[] const: element i of the buffer. */
    function At(i: nat): (v: real)
      reads this, x
      requires Valid() && x != null && i < size
      ensures v == Elements()[i]
    {
      x[i]
    }

    /** A write through operator[]: element i becomes `value`, no other
        element changes. */
    method SetAt(i: nat, value: real)
      requires Valid() && x != null && i < size
      modifies x
      ensures x[..] == old(x[..])[i := value]
    {
      x[i] := value;
    }
  }
}
