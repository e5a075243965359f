/** The older dense vector of CholmodDenseVector.cpp: a `cholmod_dense`
    handle `x` (modelled by its value buffer), the CHOLMOD context it was
    made with, and `size`. It has no move operations, and its destructor
    hands the handle back unconditionally. */
module LegacyDenseVector {
  import opened Elementwise
  import opened Backend

  class CholmodDenseVector {
    var x: array?<real>
    const common: Common
    const size: nat

    ghost predicate Valid()
      reads this
    {
      x != null ==> size <= x.Length
    }

    /** CholmodDenseVector(size, Common): a fresh handle of `size` values. */
    constructor (size: nat, common: Common)
      ensures Valid() && x != null && fresh(x) && x.Length == size
      ensures this.size == size && this.common == common
    {
      x := new real[size];
      this.common := common;
      this.size := size;
    }

    /** CholmodDenseVector(x, Common, size): adopts a handle made
        elsewhere. */
    constructor FromHandle(x: array<real>, common: Common, size: nat)
      requires size <= x.Length
      ensures Valid() && this.x == x && this.common == common && this.size == size
    {
      this.x := x;
      this.common := common;
      this.size := size;
    }

    /** The destructor: cholmod_free_dense on the handle, whatever it is
        (the library ignores a null one), then nulls it. */
    method Destroy()
      requires Valid()
      modifies this, common
      ensures x == null
      ensures common.freed == old(common.freed) + (if old(x) == null then [] else [old(x)])
    {
      common.Free(x);
      x := null;
    }

    /** zero: memset of the `size` values. */
    method Zero()
      requires Valid() && x != null
      modifies x
      ensures x[..size] == Filled(size, 0.0)
      ensures forall k :: size <= k < x.Length ==> x[k] == old(x[k])
    {
      forall k | 0 <= k < size {
        x[k] := 0.0;
      }
    }

    /** set(float*): element k from inData[k] for every k < size, one per
        loop step, and nothing else. */
    method SetFloats(inData: seq<real>)
      requires Valid() && x != null && |inData| >= size
      modifies x
      ensures x[..size] == inData[..size]
      ensures forall k :: size <= k < x.Length ==> x[k] == old(x[k])
    {
      var data := x;
      var i := 0;
      while i < size
        invariant 0 <= i <= size
        invariant forall k :: 0 <= k < i ==> data[k] == inData[k]
        invariant forall k :: i <= k < data.Length ==> data[k] == old(data[k])
      {
        data[i] := inData[i];
        i := i + 1;
      }
    }

    /** set(double*) (memcpy): the first `size` values of `data`. */
    method Set(data: seq<real>)
      requires Valid() && x != null && |data| >= size
      modifies x
      ensures x[..size] == data[..size]
      ensures forall k :: size <= k < x.Length ==> x[k] == old(x[k])
    {
      forall k | 0 <= k < size {
        x[k] := data[k];
      }
    }

    /** get(double*) (memcpy): writes the `size` values out and nothing
        else. */
    method Get(outData: array<real>)
      requires Valid() && x != null && outData.Length >= size && outData != x
      modifies outData
      ensures outData[..size] == x[..size]
      ensures forall k :: size <= k < outData.Length ==> outData[k] == old(outData[k])
    {
      forall k | 0 <= k < size {
        outData[k] := x[k];
      }
    }

    /** get(float*): exactly `size` output elements, one per buffer
        element. */
    method GetFloats(outData: array<real>)
      requires Valid() && x != null && outData.Length >= size && outData != x
      modifies outData
      ensures outData[..size] == x[..size]
      ensures forall k :: size <= k < outData.Length ==> outData[k] == old(outData[k])
    {
      var data := x;
      var i := 0;
      while i < size
        invariant 0 <= i <= size
        invariant forall k :: 0 <= k < i ==> outData[k] == data[k]
        invariant forall k :: i <= k < outData.Length ==> outData[k] == old(outData[k])
      {
        outData[i] := data[i];
        i := i + 1;
      }
    }
  }
}
