/** The invariant of a SparseMatrix, stated over the values of its fields:
    what ties the views to the triplet while assembling, and the built
    matrix to its index afterwards. */
module MatrixPhases {
  import opened LookupKey
  import opened SymmetricStorage
  import opened CompressedColumn
  import opened LookupIndex
  import opened TripletStore

  /** The triplet side of a valid matrix: the triplet has the matrix's
      shape, the array views and maxTripletElements mirror it, and every
      entry in use passed the checks of initAddValue. */
  ghost predicate TripletAgrees(t: Triplet, sym: Symmetry, nrow: nat, ncol: nat, values: array?<real>,
                                iRow: array?<int>, jColumn: array?<int>, maxTripletElements: nat)
    reads t, t.i, t.j
  {
    && t.Valid()
    && t.nrow == nrow && t.ncol == ncol && t.stype == sym
    && values == t.x && iRow == t.i && jColumn == t.j
    && maxTripletElements == t.Capacity()
    && EntriesAllowed(sym, nrow, ncol, t.i[..t.nnz], t.j[..t.nnz])
  }

  /** Every entry (rows[k], cols[k]) passed the checks of initAddValue. */
  ghost predicate EntriesAllowed(sym: Symmetry, nrow: nat, ncol: nat, rows: seq<int>, cols: seq<int>) {
    && |rows| == |cols|
    && forall k :: 0 <= k < |rows| ==> EntryAllowed(sym, nrow, ncol, rows[k], cols[k])
  }

  /** Appending an allowed entry keeps every entry allowed. */
  lemma EntriesAllowedAppend(sym: Symmetry, nrow: nat, ncol: nat, rows: seq<int>, cols: seq<int>, row: int, column: int)
    requires EntriesAllowed(sym, nrow, ncol, rows, cols) && EntryAllowed(sym, nrow, ncol, row, column)
    ensures EntriesAllowed(sym, nrow, ncol, rows + [row], cols + [column])
  {
    forall k | 0 <= k < |rows| + 1
      ensures EntryAllowed(sym, nrow, ncol, (rows + [row])[k], (cols + [column])[k])
    {
      if k < |rows| {
        assert (rows + [row])[k] == rows[k] && (cols + [column])[k] == cols[k];
      }
    }
  }

  /** The built side of a valid matrix: a well-formed compressed matrix of
      the matrix's shape, and an index that is either empty or complete. */
  ghost predicate SparseAgrees(s: Compressed, sym: Symmetry, nrow: nat, ncol: nat, lookupIndex: map<int, int>) {
    && s.Valid()
    && s.nrow == nrow && s.ncol == ncol && s.stype == sym
    && (|lookupIndex| == 0 || lookupIndex == IndexOf(ncol, s.p, s.i))
  }

  /** The coordinate conditions of assertValidInitAddValue
      (sparse_matrix.cpp:299-309): inside the matrix, in the stored half,
      and below 2^32. */
  predicate EntryAllowed(sym: Symmetry, nrow: nat, ncol: nat, row: int, column: int) {
    && 0 <= row < nrow && 0 <= column < ncol
    && InStoredHalf(sym, row, column)
    && IsUInt32(row) && IsUInt32(column)
  }

  /** The footprint holds the triplet with its arrays and the built
      matrix with its values. */
  ghost predicate Owns(repr: set<object>, t: Triplet?, s: Compressed?)
    reads t
  {
    && (t != null ==> t in repr && t.i in repr && t.j in repr && t.x in repr)
    && (s != null ==> s in repr && s.x in repr)
  }

  /** The two phases: the views alias the triplet's arrays, the triplet
      holds allowed entries within its room and maxTripletElements is that
      room; a built matrix is well formed, has no triplet, and its index is
      empty or complete. */
  ghost predicate Phases(s: Compressed?, t: Triplet?, sym: Symmetry, nrow: nat, ncol: nat, values: array?<real>,
                         iRow: array?<int>, jColumn: array?<int>, maxTripletElements: nat, lookupIndex: map<int, int>)
    reads if t == null then {} else {t, t.i, t.j}
  {
    && (t != null ==> TripletAgrees(t, sym, nrow, ncol, values, iRow, jColumn, maxTripletElements))
    && (t == null ==> values == null && iRow == null && jColumn == null)
    && (s != null ==> t == null && SparseAgrees(s, sym, nrow, ncol, lookupIndex))
    && (s == null ==> |lookupIndex| == 0)
  }
}
