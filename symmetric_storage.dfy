/** Symmetric half-storage: which triangle of a symmetric matrix is kept, and
    how a coordinate outside it is mapped into it (sparse_matrix.h:22-26,
    129-136). */
module SymmetricStorage {
  import opened LookupKey

  /** The source's enum: SYMMETRIC_LOWER = -1, ASYMMETRIC = 0,
      SYMMETRIC_UPPER = 1; the integer is CHOLMOD's `stype`. */
  datatype Symmetry = SymmetricLower | Asymmetric | SymmetricUpper

  function Stype(s: Symmetry): int {
    match s
    case SymmetricLower => -1
    case Asymmetric => 0
    case SymmetricUpper => 1
  }

  /** The coordinate `getIndex` really looks up: under upper storage a
      coordinate below the diagonal is swapped, under lower storage one above
      it; otherwise it is left as it is. */
  function StoredHalf(sym: Symmetry, row: int, column: int): (int, int) {
    if sym == SymmetricUpper && row > column then (column, row)
    else if sym == SymmetricLower && row < column then (column, row)
    else (row, column)
  }

  /** The half a symmetric matrix accepts entries in (the row/column test of
      assertValidIndex and assertValidInitAddValue). */
  predicate InStoredHalf(sym: Symmetry, row: int, column: int) {
    match sym
    case SymmetricUpper => row <= column
    case SymmetricLower => row >= column
    case Asymmetric => true
  }

  /** The remapped coordinate always lies in the stored half, is a permutation
      of the original pair, and a coordinate already in the stored half is
      left alone. */
  lemma StoredHalfInHalf(sym: Symmetry, row: int, column: int)
    ensures InStoredHalf(sym, StoredHalf(sym, row, column).0, StoredHalf(sym, row, column).1)
    ensures StoredHalf(sym, row, column) == (row, column) || StoredHalf(sym, row, column) == (column, row)
    ensures InStoredHalf(sym, row, column) ==> StoredHalf(sym, row, column) == (row, column)
  {
  }

  /** For a symmetric matrix a coordinate and its mirror image reach the same
      stored position. */
  lemma StoredHalfSymmetric(sym: Symmetry, row: int, column: int)
    requires sym != Asymmetric
    ensures StoredHalf(sym, row, column) == StoredHalf(sym, column, row)
  {
  }
}
