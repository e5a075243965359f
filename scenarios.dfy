/** Short life cycles of the buffers, each stating what the whole sequence of
    calls leaves behind: the ownership findings of the move operations as
    written next to the corrected ones, the growth of the triplet, and the
    zero-then-refill use of a built matrix (test/objects.h:66-71). */
module Scenarios {
  import opened LookupKey
  import opened SymmetricStorage
  import opened Backend
  import opened SparseMatrices
  import opened DenseVectors
  import opened DenseMatrices
  import opened LegacyDenseVector

  /** Two matrices still assembling, each with its own triplet, and an
      empty ledger outside both. */
  method TwoAssembling() returns (a: SparseMatrix, b: SparseMatrix, common: Common)
    ensures a.Valid() && b.Valid() && a != b && a !in b.Repr && common !in b.Repr
    ensures a.sparse == null && b.sparse == null && a.triplet != null && b.triplet != null
    ensures a.triplet != b.triplet && common.freed == []
    ensures fresh(a) && fresh(b) && fresh(common)
  {
    common := new Common();
    a := new SparseMatrix(2, 2, 0);
    b := new SparseMatrix(2, 2, 0);
  }

  /** Move assignment as written, then both destructors: the source's
      triplet is handed to cholmod_free_triplet twice. */
  method MoveAssignAsWrittenFreesTwice() returns (freed: seq<object>)
    ensures |freed| == 3 && freed[1] == freed[2]
    ensures !NoDoubleFree(freed)
  {
    var a, b, common := TwoAssembling();
    ghost var ta, tb := a.triplet, b.triplet;
    a.MoveAssignAsWritten(b, common);
    a.Destroy(common);
    b.Destroy(common);
    freed := common.freed;
    assert freed == [ta, tb, tb];
  }

  /** Two built 2-by-2 matrices, each with its own cholmod_sparse; building
      them freed their two triplets. */
  method TwoBuilt() returns (a: SparseMatrix, b: SparseMatrix, common: Common)
    ensures a != b && a.sparse != null && b.sparse != null && a.sparse != b.sparse
    ensures a.triplet == null && b.triplet == null && |common.freed| == 2
    ensures fresh(a) && fresh(b) && fresh(common)
  {
    common := new Common();
    a := new SparseMatrix(2, 2, 0);
    a.Build(true, common);
    b := new SparseMatrix(2, 2, 0);
    b.Build(true, common);
  }

  /** Move assignment as written between built matrices, then both
      destructors: the source's cholmod_sparse is handed to
      cholmod_free_sparse twice. */
  method MoveAssignAsWrittenFreesSparseTwice() returns (freed: seq<object>)
    ensures |freed| == 5 && freed[3] == freed[4]
    ensures !NoDoubleFree(freed)
  {
    var a, b, common := TwoBuilt();
    ghost var sa, sb := a.sparse, b.sparse;
    a.MoveAssignAsWritten(b, common);
    a.Destroy(common);
    b.Destroy(common);
    freed := common.freed;
    assert freed[2..] == [sa, sb, sb];
  }

  /** The corrected move assignment, then both destructors: the target's
      old triplet and the source's triplet are freed once each. */
  method MoveAssignFreesOnce() returns (freed: seq<object>)
    ensures |freed| == 2
    ensures NoDoubleFree(freed)
  {
    var a, b, common := TwoAssembling();
    ghost var ta, tb := a.triplet, b.triplet;
    a.MoveAssign(b, common);
    a.Destroy(common);
    b.Destroy(common);
    freed := common.freed;
    assert freed == [ta, tb];
  }

  /** The move constructor as written, on a matrix still assembling: the
      new matrix holds the triplet but not the `values` view into it, so it
      is not a valid matrix and the next append would write through an
      unset pointer. */
  method MoveAsWrittenLosesValues() returns (holdsTriplet: bool, valid: bool)
    ensures holdsTriplet && !valid
  {
    var a := new SparseMatrix(2, 2, 0);
    var b := new SparseMatrix.MoveAsWritten(a);
    holdsTriplet := b.triplet != null;
    valid := b.values == b.triplet.x;
  }

  /** A 2-by-2 matrix holding the single entry (0, 0) = 2. */
  method OneEntry() returns (a: SparseMatrix)
    ensures a.Valid() && fresh(a.Repr) && a.sparse == null && a.triplet != null
    ensures a.Header() == (2, 2, SymmetricUpper)
    ensures a.Rows() == [0] && a.Columns() == [0] && a.Values() == [2.0]
  {
    a := new SparseMatrix(2, 2, 0);
    a.SetValue(0, 0, 2.0);
  }

  /** The corrected move constructor keeps assembling where the source
      left off: an entry appended before the move and one after it. */
  method MoveKeepsAssembling() returns (rows: seq<int>, columns: seq<int>, values: seq<real>)
    ensures rows == [0, 0] && columns == [0, 1] && values == [2.0, 0.0]
  {
    var a := OneEntry();
    var b := new SparseMatrix.Move(a);
    var r := b.InitAddValue(0, 1);
    var t := b.triplet;
    rows, columns, values := t.i[..t.nnz], t.j[..t.nnz], t.x[..t.nnz];
  }

  /** A room of one: the first append fits, the second finds nnz equal to
      maxTripletElements and grows the triplet to GrownCapacity(1) == 2. */
  method GrowthOnSecondAppend() returns (nnz: nat, room: nat)
    ensures nnz == 2 && room == 2
  {
    var a := new SparseMatrix(1, 1, 1);
    var r1 := a.InitAddValue(0, 0);
    var r2 := a.InitAddValue(0, 0);
    nnz, room := a.triplet.nnz, a.triplet.Capacity();
  }

  /** The reference handed out by the first append points into the first
      values array; the growing second append replaces that array, so the
      old reference no longer points into the matrix. */
  method GrowthStalesReference() returns (stale: bool)
    ensures stale
  {
    var a := new SparseMatrix(1, 1, 1);
    var r1 := a.InitAddValue(0, 0);
    var r2 := a.InitAddValue(0, 0);
    stale := r1.a != a.values;
  }

  /** zero followed by `A(row, column) = value` on a built matrix: the
      coordinate then reads as the value when it is stored, and as 0 when it
      is not. */
  method ZeroThenRefill(m: SparseMatrix, row: int, column: int, value: real) returns (read: real)
    requires m.Valid() && m.sparse != null
    requires IsUInt32(row) && IsUInt32(column)
    modifies m.Repr
    ensures m.Valid() && m.sparse != null
    ensures read == if m.Stored(row, column) == -1 then 0.0 else value
  {
    m.Zero();
    m.SetValue(row, column, value);
    read := m.GetValue(row, column);
  }

  /** Dense vector move assignment, then both destructors: each buffer is
      freed exactly once. */
  method DenseVectorFreesOnce() returns (freed: seq<object>)
    ensures |freed| == 2
    ensures NoDoubleFree(freed)
  {
    var common := new Common();
    var a := new DenseVector(3);
    var b := new DenseVector(3);
    ghost var xa, xb := a.x, b.x;
    a.MoveAssign(b, common);
    a.Destroy(common);
    b.Destroy(common);
    freed := common.freed;
    assert freed == [xa, xb];
  }

  /** Dense matrix move construction, then both destructors: the buffer is
      freed once, by the new owner. */
  method DenseMatrixFreesOnce() returns (freed: seq<object>)
    ensures |freed| == 1
    ensures NoDoubleFree(freed)
  {
    var common := new Common();
    var a := new DenseMatrix(4);
    var b := new DenseMatrix.Move(a);
    a.Destroy(common);
    b.Destroy(common);
    freed := common.freed;
  }

  /** The legacy vector has no move operations: two vectors destroyed once
      each free two distinct handles. */
  method LegacyFreesOnce() returns (freed: seq<object>)
    ensures |freed| == 2
    ensures NoDoubleFree(freed)
  {
    var common := new Common();
    var a := new CholmodDenseVector(2, common);
    var b := new CholmodDenseVector(2, common);
    a.Destroy();
    b.Destroy();
    freed := common.freed;
  }

  /** set(double*) then get(double*) on a fresh dense vector hands back the
      first `size` values passed in. */
  method DenseVectorSetGet(n: nat, data: seq<real>) returns (out: seq<real>)
    requires |data| >= n
    ensures out == data[..n]
  {
    var v := new DenseVector(n);
    v.Set(data);
    var o := new real[n];
    v.Get(o);
    out := o[..];
  }

  /** The same round trip on a dense matrix. */
  method DenseMatrixSetGet(n: nat, data: seq<real>) returns (out: seq<real>)
    requires |data| >= n
    ensures out == data[..n]
  {
    var m := new DenseMatrix(n);
    m.Set(data);
    var o := new real[n];
    m.Get(o);
    out := o[..];
  }

  /** The same round trip on the legacy vector. */
  method LegacySetGet(n: nat, data: seq<real>) returns (out: seq<real>)
    requires |data| >= n
    ensures out == data[..n]
  {
    var common := new Common();
    var v := new CholmodDenseVector(n, common);
    v.Set(data);
    var o := new real[n];
    v.Get(o);
    out := o[..];
  }
}
