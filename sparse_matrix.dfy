/** The two-phase sparse matrix of sparse_matrix.h / sparse_matrix.cpp.
    While assembling, `operator()` appends zero-valued entries to a
    `cholmod_triplet` (viewed through `iRow`, `jColumn`, `values`); `build`
    converts it to compressed-column form and indexes the stored
    coordinates in `lookupIndex`; afterwards `operator()` hands out the slot
    of a stored coordinate, or a scratch value for one outside the pattern.
    A `double&` handed out is modelled by `Ref` and written with `Store`. */
module SparseMatrices {
  import opened LookupKey
  import opened SymmetricStorage
  import opened CompressedColumn
  import opened LookupIndex
  import opened TripletToSparse
  import opened TripletStore
  import opened Backend
  import opened DenseVectors
  import opened NullSpace
  import opened MatrixPhases

  /** Where a `double&` returned by operator() points: slot k of the
      triplet's values array, slot k of the built matrix's x array, or the
      static scratch `zero` of getValue (sparse_matrix.h:171). A slot
      reference names the array it points into, so it stops being usable
      once that array is replaced (a growing append, build, a move). */
  datatype Ref = TripletSlot(a: array<real>, k: int) | SparseSlot(a: array<real>, k: int) | Scratch

  /** The constructor's triplet room (sparse_matrix.cpp:28-33): `maxSize`,
      or for 0 the triangular number nrow*(ncol+1)/2 computed in 32-bit
      unsigned arithmetic. */
  function InitialCapacity(nrow: nat, ncol: nat, maxSize: nat): (cap: nat)
    requires IsUInt32(nrow) && IsUInt32(ncol)
    ensures maxSize != 0 ==> cap == maxSize
    ensures maxSize == 0 ==> cap < Base / 2
    ensures maxSize == 0 && nrow * (ncol + 1) < Base ==> 2 * cap <= nrow * (ncol + 1) <= 2 * cap + 1
  {
    if maxSize == 0 then ((nrow * ((ncol + 1) % Base)) % Base) / 2 else maxSize
  }

  /** The number of coordinates (r, c) with r <= c < n: the upper half of
      an n-by-n matrix, diagonal included (column c holds c + 1 of them). */
  function UpperHalfSize(n: nat): nat {
    if n == 0 then 0 else UpperHalfSize(n - 1) + n
  }

  /** For a square matrix whose size does not wrap the 32-bit product, the
      default room is exactly the size of the stored upper half. */
  lemma {:induction false} DefaultCapacityIsUpperHalf(n: nat)
    requires n * (n + 1) < Base
    ensures InitialCapacity(n, n, 0) == UpperHalfSize(n)
  {
    TriangularNumber(n);
  }

  lemma {:induction false} TriangularNumber(n: nat)
    ensures 2 * UpperHalfSize(n) == n * (n + 1)
  {
    if n > 0 {
      TriangularNumber(n - 1);
    }
  }

  /** The room after increaseTripletCapacity: the documented growth factor
      1.5 rounded up, and at least one more slot. */
  function GrownCapacity(cap: nat): (r: nat)
    ensures r > cap && 2 * r >= 3 * cap && 2 * r <= 3 * cap + 2
  {
    if cap == 0 then 1 else cap + (cap + 1) / 2
  }

  /** The conditions of assertValidIndex (sparse_matrix.cpp:275-287). */
  predicate ValidIndex(sym: Symmetry, nrow: nat, ncol: nat, row: int, column: int) {
    && sym == SymmetricUpper
    && 0 <= row < nrow && 0 <= column < ncol
    && InStoredHalf(sym, row, column)
  }

  /** Under assertValidIndex the swap of getIndex never happens: the index
      check already demands row <= column for upper storage. */
  lemma ValidIndexLeavesCoordinate(sym: Symmetry, nrow: nat, ncol: nat, row: int, column: int)
    requires ValidIndex(sym, nrow, ncol, row, column)
    ensures StoredHalf(sym, row, column) == (row, column)
  {
  }

  /** Whether the slot initAddValue writes lies inside the triplet, given
      the slots in use, the room, and the value the growth test compares
      nnz with (sparse_matrix.h:151-155). */
  function AppendHasRoom(nnz: nat, capacity: nat, maxTripletElements: int): bool {
    var room := if nnz == maxTripletElements then GrownCapacity(capacity) else capacity;
    nnz < room
  }

  /** When maxTripletElements tracks the room, every append has room. */
  lemma AppendHasRoomWhenTracked(nnz: nat, capacity: nat)
    requires nnz <= capacity
    ensures AppendHasRoom(nnz, capacity, capacity)
  {
  }

  /** As written the constructor never assigns maxTripletElements: with a
      room of 1 already in use, any value other than 1 skips the growth and
      the next append writes past the arrays. */
  lemma UnsetMaxTripletElementsOverflows(garbage: int)
    requires garbage != 1
    ensures !AppendHasRoom(1, 1, garbage)
  {
  }

  /** The loops of buildLookupIndexFromSparse: column by column, the key of
      every stored (row, j) is set to the running counter, which is the
      slot itself. */
  method IndexColumns(s: Compressed) returns (m: map<int, int>)
    requires s.Valid()
    ensures m == IndexOf(s.ncol, s.p, s.i)
  {
    m := map[];
    var idx := 0;
    var j := 0;
    while j < s.ncol
      invariant 0 <= j <= s.ncol
      invariant idx == s.p[j]
      invariant m == IndexUpTo(s.ncol, s.p, s.i, j)
    {
      var iFrom := s.p[j];
      var iTo := s.p[j + 1] - 1;
      assert 0 <= iFrom <= iTo + 1 <= s.p[s.ncol] <= |s.i|;
      var k := iFrom;
      while k <= iTo
        invariant iFrom <= k <= iTo + 1
        invariant idx == k
        invariant m == AddColumn(IndexUpTo(s.ncol, s.p, s.i, j), s.i, j, iFrom, k)
      {
        var row := s.i[k];
        m := m[Key(row, j) := idx];
        idx := idx + 1;
        k := k + 1;
      }
      j := j + 1;
    }
  }

  /** cholmod_triplet_to_sparse as called by build: a fresh compressed
      matrix of the same shape whose rows ascend in each column and whose
      every coordinate holds the sum of the values appended at it. */
  method TripletToCompressed(nrow: nat, ncol: nat, sym: Symmetry, rows: seq<int>, cols: seq<int>, vals: seq<real>)
    returns (s: Compressed)
    requires |rows| == |cols| == |vals|
    ensures fresh(s) && fresh(s.x) && s.Valid() && s.nrow == nrow && s.ncol == ncol && s.stype == sym
    ensures RowsSorted(ncol, s.p, s.i)
    ensures forall row, column :: 0 <= row < nrow && 0 <= column < ncol ==>
      s.Entry(row, column) == SumAt(rows, cols, vals, |rows|, row, column)
  {
    var d := Compress(nrow, ncol, rows, cols, vals);
    CompressWellFormed(nrow, ncol, rows, cols, vals);
    CompressEntries(nrow, ncol, rows, cols, vals);
    s := new Compressed(nrow, ncol, sym, d.p, d.i, d.x);
  }

  class SparseMatrix {
    var sparse: Compressed?
    var triplet: Triplet?
    var nrow: nat
    var ncol: nat
    var values: array?<real>
    var lookupIndex: map<int, int>
    var iRow: array?<int>
    var jColumn: array?<int>
    var symmetry: Symmetry
    var maxTripletElements: nat
    /** The static scratch value getValue hands out for an absent
        coordinate. */
    var scratch: real
    ghost var Repr: set<object>

    /** The two phases: the views alias the triplet's arrays, the triplet
        holds allowed entries within its room and maxTripletElements is that
        room; a built matrix is well formed, has no triplet, and its index
        is empty or complete. */
    ghost predicate Valid()
      reads this, Repr
    {
      && this in Repr
      && IsUInt32(nrow) && IsUInt32(ncol)
      && (triplet != null ==> triplet in Repr) && Owns(Repr, triplet, sparse)
      && Phases(sparse, triplet, symmetry, nrow, ncol, values, iRow, jColumn, maxTripletElements, lookupIndex)
    }

    /** The dimensions and symmetry. */
    function Header(): (nat, nat, Symmetry)
      reads this
    {
      (nrow, ncol, symmetry)
    }

    /** The rows, columns and values appended so far. */
    ghost function Rows(): seq<int>
      reads this, Repr
      requires Valid()
    {
      if triplet == null then [] else triplet.i[..triplet.nnz]
    }

    ghost function Columns(): seq<int>
      reads this, Repr
      requires Valid()
    {
      if triplet == null then [] else triplet.j[..triplet.nnz]
    }

    ghost function Values(): seq<real>
      reads this, Repr
      requires Valid()
    {
      if triplet == null then [] else triplet.x[..triplet.nnz]
    }

    /** The room of the triplet (0 without one). */
    ghost function Capacity(): nat
      reads this, Repr
      requires Valid()
    {
      if triplet == null then 0 else triplet.Capacity()
    }

    /** The slot of the built x that (row, column) resolves to after the
        symmetric remap, or -1. */
    ghost function Stored(row: int, column: int): int
      reads this
      requires sparse != null && sparse.Valid()
    {
      var (r, c) := StoredHalf(symmetry, row, column);
      Slot(sparse.ncol, sparse.p, sparse.i, r, c)
    }

    /** The value (row, column) reads as once built: 0 outside the
        pattern. */
    ghost function Value(row: int, column: int): real
      reads this, if sparse == null then {} else {sparse.x}
      requires sparse != null && sparse.Valid()
    {
      var k := Stored(row, column);
      if k == -1 then 0.0 else sparse.x[k]
    }

    ghost predicate RefValid(r: Ref)
      reads this, Repr
      requires Valid()
    {
      match r
      case TripletSlot(a, k) => triplet != null && a == values && 0 <= k < triplet.nnz
      case SparseSlot(a, k) => sparse != null && a == sparse.x && 0 <= k < sparse.x.Length
      case Scratch => true
    }

    /** SparseMatrix(nrow, ncol, maxSize) (sparse_matrix.cpp:22-43): an
        upper-symmetric matrix in the assembly phase with an empty triplet
        of room InitialCapacity. */
    constructor (nrow: nat, ncol: nat, maxSize: nat)
      requires IsUInt32(nrow) && IsUInt32(ncol)
      ensures Valid() && fresh(Repr)
      ensures Header() == (nrow, ncol, SymmetricUpper)
      ensures sparse == null && triplet != null && lookupIndex == map[]
      ensures Rows() == [] && Columns() == [] && Values() == []
      ensures Capacity() == maxTripletElements == InitialCapacity(nrow, ncol, maxSize)
    {
      var elements := InitialCapacity(nrow, ncol, maxSize);
      var t := new Triplet(nrow, ncol, elements, SymmetricUpper);
      sparse := null;
      triplet := t;
      this.nrow, this.ncol := nrow, ncol;
      values, iRow, jColumn := t.x, t.i, t.j;
      symmetry := SymmetricUpper;
      maxTripletElements := elements;
      lookupIndex := map[];
      scratch := 0.0;
      Repr := {this, t, t.i, t.j, t.x};
    }

    /** increaseTripletCapacity (declared at sparse_matrix.h:126, its body
        not defined anywhere in OOCholmod's sources): reallocate the triplet to GrownCapacity, keep the
        entries, rebind the views and track the new room. */
    method IncreaseTripletCapacity()
      requires Valid() && triplet != null
      modifies Repr
      ensures Valid() && fresh(Repr - old(Repr))
      ensures sparse == old(sparse) && triplet == old(triplet) && Header() == old(Header())
      ensures lookupIndex == old(lookupIndex) && scratch == old(scratch)
      ensures Rows() == old(Rows()) && Columns() == old(Columns()) && Values() == old(Values())
      ensures Capacity() == maxTripletElements == GrownCapacity(old(maxTripletElements))
    {
      var t := triplet;
      var cap := GrownCapacity(maxTripletElements);
      t.Reallocate(cap);
      values, iRow, jColumn := t.x, t.i, t.j;
      maxTripletElements := cap;
      Repr := Repr + {t.i, t.j, t.x};
    }

    /** The allocation and growth step of initAddValue
        (sparse_matrix.h:146-156): a triplet of room maxTripletElements on
        first use, growth exactly when nnz has reached maxTripletElements. */
    method EnsureRoom()
      requires Valid() && sparse == null
      requires triplet == null ==> maxTripletElements > 0
      modifies Repr
      ensures Valid() && fresh(Repr - old(Repr))
      ensures sparse == null && triplet != null && Header() == old(Header())
      ensures lookupIndex == old(lookupIndex) && scratch == old(scratch)
      ensures Rows() == old(Rows()) && Columns() == old(Columns()) && Values() == old(Values())
      ensures |Rows()| < Capacity()
      ensures old(triplet) == null ==> fresh(triplet) && Capacity() == old(maxTripletElements)
      ensures old(triplet) != null ==> triplet == old(triplet)
      ensures old(triplet) != null && |old(Rows())| == old(maxTripletElements) ==>
        Capacity() == GrownCapacity(old(maxTripletElements))
      ensures old(triplet) != null && |old(Rows())| != old(maxTripletElements) ==>
        Capacity() == old(maxTripletElements)
    {
      if triplet == null {
        var created := new Triplet(nrow, ncol, maxTripletElements, symmetry);
        triplet := created;
        values, iRow, jColumn := created.x, created.i, created.j;
        Repr := Repr + {created, created.i, created.j, created.x};
      } else if triplet.nnz == maxTripletElements {
        IncreaseTripletCapacity();
      }
    }

    /** The store step of initAddValue (sparse_matrix.h:157-160): the new
        entry goes into slot nnz, which has room. */
    method Append(row: int, column: int) returns (r: Ref)
      requires Valid() && sparse == null && triplet != null && |Rows()| < Capacity()
      requires EntryAllowed(symmetry, nrow, ncol, row, column)
      modifies triplet, triplet.i, triplet.j, triplet.x
      ensures Valid() && Capacity() == old(Capacity())
      ensures Rows() == old(Rows()) + [row]
      ensures Columns() == old(Columns()) + [column]
      ensures Values() == old(Values()) + [0.0]
      ensures r == TripletSlot(values, |old(Rows())|)
    {
      var t := triplet;
      ghost var rows, columns, vals := t.i[..t.nnz], t.j[..t.nnz], t.x[..t.nnz];
      var n := t.nnz;
      iRow[n] := row;
      jColumn[n] := column;
      values[n] := 0.0;
      t.nnz := n + 1;
      assert t.i[..t.nnz] == rows + [row];
      assert t.j[..t.nnz] == columns + [column];
      assert t.x[..t.nnz] == vals + [0.0];
      EntriesAllowedAppend(symmetry, nrow, ncol, rows, columns, row, column);
      r := TripletSlot(values, n);
    }

    /** initAddValue (sparse_matrix.h:144-161): allocates the triplet on
        first use with room maxTripletElements, grows it exactly when it is
        full, and appends (row, column, 0.0), handing out the new slot. */
    method InitAddValue(row: int, column: int) returns (r: Ref)
      requires Valid() && sparse == null
      requires EntryAllowed(symmetry, nrow, ncol, row, column)
      requires triplet == null ==> maxTripletElements > 0
      modifies Repr
      ensures Valid() && fresh(Repr - old(Repr))
      ensures sparse == null && triplet != null && Header() == old(Header())
      ensures lookupIndex == old(lookupIndex) && scratch == old(scratch)
      ensures Rows() == old(Rows()) + [row]
      ensures Columns() == old(Columns()) + [column]
      ensures Values() == old(Values()) + [0.0]
      ensures r == TripletSlot(values, |old(Rows())|)
      ensures old(triplet) == null ==> fresh(triplet) && Capacity() == old(maxTripletElements)
      ensures old(triplet) != null ==> triplet == old(triplet)
      ensures old(triplet) != null && |old(Rows())| == old(maxTripletElements) ==>
        Capacity() == GrownCapacity(old(maxTripletElements))
      ensures old(triplet) != null && |old(Rows())| != old(maxTripletElements) ==>
        Capacity() == old(maxTripletElements)
    {
      EnsureRoom();
      r := Append(row, column);
    }

    /** build(readOnly) (sparse_matrix.cpp:169-189): converts the triplet,
        frees it, nulls the triplet side and, unless readOnly, builds the
        index. The built value of a coordinate is the sum of the values
        appended at it. */
    method Build(readOnly: bool, common: Common)
      requires Valid() && sparse == null && triplet != null
      modifies Repr, common
      ensures Valid() && fresh(Repr - old(Repr)) && Header() == old(Header())
      ensures sparse != null && fresh(sparse)
      ensures triplet == null && values == null && iRow == null && jColumn == null
      ensures common.freed == old(common.freed) + [old(triplet)]
      ensures lookupIndex == if readOnly then map[] else IndexOf(ncol, sparse.p, sparse.i)
      ensures RowsSorted(ncol, sparse.p, sparse.i)
      ensures forall row, column :: 0 <= row < nrow && 0 <= column < ncol ==>
        sparse.Entry(row, column) == SumAt(old(Rows()), old(Columns()), old(Values()), |old(Rows())|, row, column)
    {
      var t := triplet;
      var s := TripletToCompressed(nrow, ncol, symmetry, t.i[..t.nnz], t.j[..t.nnz], t.x[..t.nnz]);
      sparse := s;
      common.Free(t);
      triplet := null;
      values := null;
      iRow := null;
      jColumn := null;
      Repr := Repr + {s, s.x};
      if !readOnly {
        BuildLookupIndexFromSparse();
      }
    }

    /** buildLookupIndexFromSparse (sparse_matrix.cpp:191-207): clears the
        map and refills it from the built pattern, whatever it held before. */
    method BuildLookupIndexFromSparse()
      requires Valid() && sparse != null
      modifies this`lookupIndex
      ensures Valid() && lookupIndex == IndexOf(ncol, sparse.p, sparse.i)
    {
      lookupIndex := map[];
      lookupIndex := IndexColumns(sparse);
    }

    /** getValue const (sparse_matrix.h:178-190): builds the index if it is
        empty, then reads x at the slot of the remapped coordinate, or 0. */
    method GetValue(row: int, column: int) returns (v: real)
      requires Valid() && sparse != null && IsUInt32(row) && IsUInt32(column)
      modifies this`lookupIndex
      ensures Valid() && lookupIndex == IndexOf(ncol, sparse.p, sparse.i)
      ensures v == Value(row, column)
    {
      if lookupIndex == map[] {
        BuildLookupIndexFromSparse();
      }
      var index := GetIndex(symmetry, lookupIndex, row, column);
      GetIndexFindsSlot(nrow, ncol, sparse.p, sparse.i, symmetry, row, column);
      if index == -1 {
        v := 0.0;
      } else {
        v := sparse.x[index];
      }
    }

    /** getValue non-const (sparse_matrix.h:163-176): the same lookup, but
        it hands out the slot itself, or the scratch value freshly reset to
        0 for an absent coordinate. */
    method GetValueRef(row: int, column: int) returns (r: Ref)
      requires Valid() && sparse != null && IsUInt32(row) && IsUInt32(column)
      modifies this`lookupIndex, this`scratch
      ensures Valid() && lookupIndex == IndexOf(ncol, sparse.p, sparse.i)
      ensures r == if Stored(row, column) == -1 then Scratch else SparseSlot(sparse.x, Stored(row, column))
      ensures r.Scratch? ==> scratch == 0.0
      ensures r.SparseSlot? ==> scratch == old(scratch)
    {
      if lookupIndex == map[] {
        BuildLookupIndexFromSparse();
      }
      var index := GetIndex(symmetry, lookupIndex, row, column);
      GetIndexFindsSlot(nrow, ncol, sparse.p, sparse.i, symmetry, row, column);
      if index == -1 {
        scratch := 0.0;
        r := Scratch;
      } else {
        r := SparseSlot(sparse.x, index);
      }
    }

    /** operator() non-const (sparse_matrix.h:105-112): appends while
        assembling, looks up once built. */
    method Call(row: int, column: int) returns (r: Ref)
      requires Valid() && IsUInt32(row) && IsUInt32(column)
      requires sparse == null ==>
        EntryAllowed(symmetry, nrow, ncol, row, column) && (triplet == null ==> maxTripletElements > 0)
      modifies Repr
      ensures Valid() && fresh(Repr - old(Repr)) && Header() == old(Header()) && RefValid(r)
      ensures old(sparse) == null ==>
        && sparse == null
        && Rows() == old(Rows()) + [row] && Columns() == old(Columns()) + [column]
        && Values() == old(Values()) + [0.0]
        && r == TripletSlot(values, |old(Rows())|)
      ensures old(sparse) != null ==>
        && sparse == old(sparse) && triplet == null
        && lookupIndex == IndexOf(ncol, sparse.p, sparse.i)
        && sparse.x[..] == old(sparse.x[..])
        && r == (if Stored(row, column) == -1 then Scratch else SparseSlot(sparse.x, Stored(row, column)))
        && (r.Scratch? ==> scratch == 0.0)
    {
      if sparse != null {
        r := GetValueRef(row, column);
      } else {
        r := InitAddValue(row, column);
      }
    }

    /** Writing through a reference handed out by operator(): exactly the
        slot it points to changes; a write to the scratch value changes no
        entry of the matrix. */
    method Store(r: Ref, v: real)
      requires Valid() && RefValid(r)
      modifies Repr
      ensures Valid() && Repr == old(Repr) && Header() == old(Header())
      ensures sparse == old(sparse) && triplet == old(triplet) && lookupIndex == old(lookupIndex)
      ensures Rows() == old(Rows()) && Columns() == old(Columns())
      ensures Values() == if r.TripletSlot? then old(Values())[r.k := v] else old(Values())
      ensures sparse != null ==>
        sparse.x[..] == if r.SparseSlot? then old(sparse.x[..])[r.k := v] else old(sparse.x[..])
      ensures scratch == if r.Scratch? then v else old(scratch)
    {
      match r
      case TripletSlot(_, k) =>
        values[k] := v;
      case SparseSlot(_, k) =>
        sparse.x[k] := v;
      case Scratch =>
        scratch := v;
    }

    /** `A(row, column) = value` on a built matrix: the write goes to the
        slot of the remapped coordinate when it is stored, and to the
        scratch value otherwise, so no other slot moves. */
    method SetBuiltValue(row: int, column: int, value: real)
      requires Valid() && sparse != null && IsUInt32(row) && IsUInt32(column)
      modifies this`lookupIndex, this`scratch, sparse.x
      ensures Valid() && lookupIndex == IndexOf(ncol, sparse.p, sparse.i)
      ensures sparse.x[..] == if Stored(row, column) == -1 then old(sparse.x[..])
                              else old(sparse.x[..])[Stored(row, column) := value]
    {
      var r := GetValueRef(row, column);
      match r {
        case SparseSlot(_, k) =>
          sparse.x[k] := value;
        case Scratch =>
          scratch := value;
        case TripletSlot(_, _) =>
          assert false;
      }
    }

    /** `A(row, column) = value` (setValue, called at sparse_matrix.cpp:133,
        is not defined anywhere in OOCholmod's sources and is modelled as
        this): while assembling
        it appends (row, column, value); once built it overwrites the slot
        of the remapped coordinate, or nothing when it is not stored. */
    method SetValue(row: int, column: int, value: real)
      requires Valid() && IsUInt32(row) && IsUInt32(column)
      requires sparse == null ==>
        EntryAllowed(symmetry, nrow, ncol, row, column) && (triplet == null ==> maxTripletElements > 0)
      modifies Repr
      ensures Valid() && fresh(Repr - old(Repr)) && Header() == old(Header())
      ensures old(sparse) == null ==>
        && sparse == null
        && Rows() == old(Rows()) + [row] && Columns() == old(Columns()) + [column]
        && Values() == old(Values()) + [value]
      ensures old(sparse) != null ==>
        && sparse == old(sparse)
        && lookupIndex == IndexOf(ncol, sparse.p, sparse.i)
        && sparse.x[..] == if Stored(row, column) == -1 then old(sparse.x[..])
                           else old(sparse.x[..])[Stored(row, column) := value]
    {
      if sparse != null {
        SetBuiltValue(row, column, value);
      } else {
        var r := InitAddValue(row, column);
        Store(r, value);
      }
    }

    /** zero (sparse_matrix.cpp:228-234): memset of all nzmax values; the
        pattern is untouched, so every coordinate then reads 0. */
    method Zero()
      requires Valid() && sparse != null
      modifies sparse.x
      ensures Valid()
      ensures forall k :: 0 <= k < sparse.x.Length ==> sparse.x[k] == 0.0
      ensures forall row, column :: Value(row, column) == 0.0
    {
      forall k | 0 <= k < sparse.x.Length {
        sparse.x[k] := 0.0;
      }
    }

    /** The second loop of setNullSpace (sparse_matrix.cpp:131-135): for
        every t < v.size with v[t] == 0 the diagonal (t, t) is set to 1. */
    method SetNullDiagonal(v: DenseVector)
      requires Valid() && sparse != null && v.Valid() && v.x != null
      requires IsUInt32(v.size) && v.x != sparse.x
      modifies this`lookupIndex, this`scratch, sparse.x
      ensures Valid()
      ensures sparse.x[..] == MarkDiagonals(ncol, sparse.p, sparse.i, old(sparse.x[..]), v.x[..v.size], v.size)
    {
      var s := sparse;
      ghost var x1 := s.x[..];
      ghost var vs := v.x[..v.size];
      var t := 0;
      while t < v.size
        invariant 0 <= t <= v.size
        invariant Valid() && sparse == s
        invariant s.x[..] == MarkDiagonals(ncol, s.p, s.i, x1, vs, t)
      {
        ghost var prev := s.x[..];
        if v.x[t] == 0.0 {
          SetBuiltValue(t, t, 1.0);
          assert StoredHalf(symmetry, t, t) == (t, t);
        }
        MarkDiagonalsNext(ncol, s.p, s.i, x1, vs, t, prev, s.x[..]);
        t := t + 1;
      }
    }

    /** setNullSpace(v) (sparse_matrix.cpp:114-136): the values become
        NullSpaced of the old ones (scaled by v[row] * v[column], with 1 on
        each stored diagonal where v is 0); the pattern is untouched. */
    method SetNullSpace(v: DenseVector)
      requires Valid() && sparse != null && v.Valid() && v.x != null
      requires nrow <= v.size && ncol <= v.size && IsUInt32(v.size) && v.x != sparse.x
      modifies this`lookupIndex, this`scratch, sparse.x
      ensures Valid()
      ensures sparse.x[..] == NullSpaced(nrow, ncol, sparse.p, sparse.i, old(sparse.x[..]), v.x[..v.size])
    {
      ScaleByOuter(sparse, v.x, v.size);
      SetNullDiagonal(v);
    }

    /** The move constructor as written (sparse_matrix.cpp:54-69): neither
        `values` nor `maxTripletElements` is taken over (their indeterminate
        values are modelled as null and 0); the source is nulled. */
    constructor MoveAsWritten(move: SparseMatrix)
      requires move.Valid()
      modifies move
      ensures sparse == old(move.sparse) && triplet == old(move.triplet) && Header() == old(move.Header())
      ensures lookupIndex == old(move.lookupIndex) && iRow == old(move.iRow) && jColumn == old(move.jColumn)
      ensures values == null && maxTripletElements == 0
      ensures move.sparse == null && move.triplet == null && move.values == null
      ensures move.iRow == null && move.jColumn == null && move.lookupIndex == map[]
    {
      sparse, triplet, nrow, ncol, lookupIndex, iRow, jColumn, symmetry :=
        move.sparse, move.triplet, move.nrow, move.ncol, move.lookupIndex, move.iRow, move.jColumn, move.symmetry;
      values, maxTripletElements, scratch := null, 0, 0.0;
      new;
      Repr := {this} + (move.Repr - {move});
      move.sparse, move.triplet := null, null;
      move.values, move.iRow, move.jColumn := null, null, null;
      move.lookupIndex := map[];
    }

    /** The move constructor with the whole state taken over: the new matrix
        is the old source, and the source is left empty (no handles, no
        views, no index). */
    constructor Move(move: SparseMatrix)
      requires move.Valid()
      modifies move
      ensures Valid() && move.Valid() && fresh(Repr - old(move.Repr))
      ensures sparse == old(move.sparse) && triplet == old(move.triplet) && Header() == old(move.Header())
      ensures lookupIndex == old(move.lookupIndex) && maxTripletElements == old(move.maxTripletElements)
      ensures Rows() == old(move.Rows()) && Columns() == old(move.Columns()) && Values() == old(move.Values())
      ensures move.sparse == null && move.triplet == null && move.lookupIndex == map[]
    {
      scratch := 0.0;
      new;
      Adopt(move);
      move.Release();
    }

    /** Move assignment as written (sparse_matrix.cpp:71-94): unless it is a
        self-assignment, frees its own handles and adopts the source's, but
        leaves the source's handles in place (and keeps its own `values` and
        `maxTripletElements`), so both matrices own the same handles. */
    method MoveAssignAsWritten(other: SparseMatrix, common: Common)
      modifies this`sparse, this`triplet, this`nrow, this`ncol, this`lookupIndex, this`iRow, this`jColumn, this`symmetry
      modifies other`lookupIndex, common
      ensures other == this ==> sparse == old(sparse) && triplet == old(triplet) && common.freed == old(common.freed)
      ensures other != this ==>
        && sparse == old(other.sparse) && triplet == old(other.triplet) && Header() == old(other.Header())
        && lookupIndex == old(other.lookupIndex) && iRow == old(other.iRow) && jColumn == old(other.jColumn)
        && values == old(values) && maxTripletElements == old(maxTripletElements)
        && other.sparse == old(other.sparse) && other.triplet == old(other.triplet)
        && other.lookupIndex == map[]
        && common.freed == old(common.freed) + (if old(sparse) == null then [] else [old(sparse)])
                                             + (if old(triplet) == null then [] else [old(triplet)])
    {
      if other != this {
        Destroy(common);
        ShareHandles(other);
      }
    }

    /** The hand-off of move assignment as written (sparse_matrix.cpp:84-90):
        the source's handles, views and index are copied over, only the
        source's index is cleared. */
    method ShareHandles(other: SparseMatrix)
      requires other != this
      modifies this`sparse, this`triplet, this`nrow, this`ncol, this`lookupIndex, this`iRow, this`jColumn, this`symmetry
      modifies other`lookupIndex
      ensures sparse == old(other.sparse) && triplet == old(other.triplet) && Header() == old(other.Header())
      ensures lookupIndex == old(other.lookupIndex) && iRow == old(other.iRow) && jColumn == old(other.jColumn)
      ensures other.sparse == old(other.sparse) && other.triplet == old(other.triplet) && other.lookupIndex == map[]
    {
      sparse, triplet, nrow, ncol, lookupIndex, iRow, jColumn, symmetry :=
        other.sparse, other.triplet, other.nrow, other.ncol, other.lookupIndex, other.iRow, other.jColumn, other.symmetry;
      other.lookupIndex := map[];
    }

    /** Move assignment with the hand-off completed: unless it is a
        self-assignment, frees its own handles, takes over the source's
        whole state and leaves the source empty. The ledger and this matrix
        lie outside the source's footprint. */
    method MoveAssign(other: SparseMatrix, common: Common)
      requires Valid() && other.Valid()
      requires this !in other.Repr && common !in other.Repr
      modifies this, other, common
      ensures other.Valid()
      ensures other == this ==> Valid() && sparse == old(sparse) && triplet == old(triplet) && common.freed == old(common.freed)
      ensures other != this ==>
        && Valid() && Repr == {this} + (old(other.Repr) - {other})
        && sparse == old(other.sparse) && triplet == old(other.triplet) && Header() == old(other.Header())
        && lookupIndex == old(other.lookupIndex) && maxTripletElements == old(other.maxTripletElements)
        && other.sparse == null && other.triplet == null && other.lookupIndex == map[]
        && common.freed == old(common.freed) + (if old(sparse) == null then [] else [old(sparse)])
                                             + (if old(triplet) == null then [] else [old(triplet)])
    {
      if other != this {
        Destroy(common);
        TakeOver(other);
      }
    }

    /** The hand-off of the corrected move operations: this matrix becomes
        the source, which is left empty. */
    method TakeOver(other: SparseMatrix)
      requires other.Valid() && other != this && this !in other.Repr
      modifies this, other
      ensures Valid() && other.Valid() && Repr == {this} + (old(other.Repr) - {other})
      ensures sparse == old(other.sparse) && triplet == old(other.triplet) && Header() == old(other.Header())
      ensures lookupIndex == old(other.lookupIndex) && maxTripletElements == old(other.maxTripletElements)
      ensures other.sparse == null && other.triplet == null && other.lookupIndex == map[]
    {
      Adopt(other);
      other.Release();
    }

    /** The first half of the hand-off: this matrix takes over the source's
        fields and footprint; the source is not touched. */
    method Adopt(other: SparseMatrix)
      requires other.Valid() && other != this && this !in other.Repr
      modifies this
      ensures Valid() && Repr == {this} + (other.Repr - {other})
      ensures sparse == other.sparse && triplet == other.triplet && Header() == other.Header()
      ensures lookupIndex == other.lookupIndex && maxTripletElements == other.maxTripletElements
      ensures Rows() == other.Rows() && Columns() == other.Columns() && Values() == other.Values()
    {
      var s, t, sym, rows, cols, index := other.sparse, other.triplet, other.symmetry, other.nrow, other.ncol, other.lookupIndex;
      var vs, ri, cj, room := other.values, other.iRow, other.jColumn, other.maxTripletElements;
      ghost var repr := {this} + (other.Repr - {other});
      sparse, triplet, nrow, ncol, lookupIndex, values, iRow, jColumn, symmetry, maxTripletElements, Repr :=
        s, t, rows, cols, index, vs, ri, cj, sym, room, repr;
    }

    /** The second half of the hand-off: the source lets go of its handles
        and its index, and is left a valid, empty matrix. */
    method Release()
      requires Valid()
      modifies this`sparse, this`triplet, this`values, this`iRow, this`jColumn, this`lookupIndex
      ensures Valid() && sparse == null && triplet == null && lookupIndex == map[]
    {
      sparse, triplet := null, null;
      values, iRow, jColumn := null, null, null;
      lookupIndex := map[];
    }

    /** The destructor (sparse_matrix.cpp:97-112): frees the compressed
        matrix and the triplet, each only when present, and nulls them. */
    method Destroy(common: Common)
      modifies this`sparse, this`triplet, common
      ensures sparse == null && triplet == null
      ensures common.freed == old(common.freed) + (if old(sparse) == null then [] else [old(sparse)])
                                               + (if old(triplet) == null then [] else [old(triplet)])
    {
      if sparse != null || triplet != null {
        if sparse != null {
          common.Free(sparse);
          sparse := null;
        }
        if triplet != null {
          common.Free(triplet);
          triplet := null;
        }
      }
    }
  }
}
