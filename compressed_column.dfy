/** The compressed-column (`cholmod_sparse`, packed) form a built matrix is
    held in: column pointers `p`, row indices `i` and values `x`. The
    entries of column j are at positions p[j] .. p[j+1]-1 (the comment at
    sparse_matrix.cpp:196). */
module CompressedColumn {
  import opened LookupKey
  import opened SymmetricStorage

  /** Column pointers of a packed matrix with `ncol` columns over `nzmax`
      slots: ncol+1 offsets from 0, nondecreasing, the last within nzmax. */
  ghost predicate Pointers(ncol: nat, p: seq<int>, nzmax: nat) {
    && |p| == ncol + 1
    && p[0] == 0
    && (forall j1, j2 :: 0 <= j1 <= j2 <= ncol ==> p[j1] <= p[j2])
    && p[ncol] <= nzmax
  }

  /** No row is held twice among slots lo .. hi-1. */
  ghost predicate DistinctIn(i: seq<int>, lo: int, hi: int)
    requires 0 <= lo && hi <= |i|
  {
    forall k1, k2 :: lo <= k1 < k2 < hi ==> i[k1] != i[k2]
  }

  /** The rows held in slots lo .. hi-1 ascend strictly. */
  ghost predicate AscendingIn(i: seq<int>, lo: int, hi: int)
    requires 0 <= lo && hi <= |i|
  {
    forall k1, k2 :: lo <= k1 < k2 < hi ==> i[k1] < i[k2]
  }

  /** Column j holds no row twice. */
  ghost predicate ColumnDistinct(ncol: nat, p: seq<int>, i: seq<int>, j: int)
    requires Pointers(ncol, p, |i|) && 0 <= j < ncol
  {
    DistinctIn(i, p[j], p[j + 1])
  }

  /** The rows of column j ascend strictly. */
  ghost predicate ColumnSorted(ncol: nat, p: seq<int>, i: seq<int>, j: int)
    requires Pointers(ncol, p, |i|) && 0 <= j < ncol
  {
    AscendingIn(i, p[j], p[j + 1])
  }

  /** Every stored row is a row of the matrix, and no row is stored twice in
      one column. */
  ghost predicate RowsDistinct(nrow: nat, ncol: nat, p: seq<int>, i: seq<int>)
    requires Pointers(ncol, p, |i|)
  {
    && (forall k :: 0 <= k < p[ncol] ==> 0 <= i[k] < nrow)
    && (forall j :: 0 <= j < ncol ==> ColumnDistinct(ncol, p, i, j))
  }

  /** The well-formed compressed-column matrix the lookup index is built on. */
  ghost predicate WellFormed(nrow: nat, ncol: nat, p: seq<int>, i: seq<int>) {
    Pointers(ncol, p, |i|) && RowsDistinct(nrow, ncol, p, i)
  }

  /** Rows ascend strictly within each column (what CHOLMOD promises of a
      freshly converted matrix; it implies RowsDistinct). */
  ghost predicate RowsSorted(ncol: nat, p: seq<int>, i: seq<int>)
    requires Pointers(ncol, p, |i|)
  {
    forall j :: 0 <= j < ncol ==> ColumnSorted(ncol, p, i, j)
  }

  /** Column j of a well-formed matrix spans slots p[j] .. p[j+1]-1 within
      the row array, and holds no row twice. */
  lemma ColumnOf(nrow: nat, ncol: nat, p: seq<int>, i: seq<int>, j: int)
    requires WellFormed(nrow, ncol, p, i) && 0 <= j < ncol
    ensures 0 <= p[j] <= p[j + 1] <= p[ncol] <= |i|
    ensures DistinctIn(i, p[j], p[j + 1])
  {
    assert ColumnDistinct(ncol, p, i, j);
  }

  /** Sorted columns hold no row twice. */
  lemma SortedDistinct(ncol: nat, p: seq<int>, i: seq<int>, j: int)
    requires Pointers(ncol, p, |i|) && RowsSorted(ncol, p, i) && 0 <= j < ncol
    ensures ColumnDistinct(ncol, p, i, j)
  {
    assert ColumnSorted(ncol, p, i, j);
  }

  /** Position of row `r` among i[lo..hi), or -1: a linear scan, the
      reference against which the lookup index is proved. */
  function FindRow(i: seq<int>, lo: int, hi: int, r: int): (k: int)
    requires 0 <= lo <= hi <= |i|
    ensures k == -1 || (lo <= k < hi && i[k] == r)
    decreases hi - lo
  {
    if lo == hi then -1
    else if i[lo] == r then lo
    else FindRow(i, lo + 1, hi, r)
  }

  /** The scan comes back empty exactly when no slot of lo .. hi-1 holds
      the row. */
  lemma {:induction false} FindRowMissing(i: seq<int>, lo: int, hi: int, r: int)
    requires 0 <= lo <= hi <= |i|
    ensures FindRow(i, lo, hi, r) == -1 <==> forall t :: lo <= t < hi ==> i[t] != r
    decreases hi - lo
  {
    if lo < hi {
      FindRowMissing(i, lo + 1, hi, r);
    }
  }

  /** In a column with distinct rows, the scan finds exactly the slot that
      holds the row. */
  lemma {:induction false} FindRowUnique(i: seq<int>, lo: int, hi: int, k: int)
    requires 0 <= lo <= k < hi <= |i|
    requires DistinctIn(i, lo, hi)
    ensures FindRow(i, lo, hi, i[k]) == k
    decreases k - lo
  {
    if lo < k {
      FindRowUnique(i, lo + 1, hi, k);
    }
  }

  /** The slot holding coordinate (r, c), or -1 when it is not stored. */
  ghost function Slot(ncol: nat, p: seq<int>, i: seq<int>, r: int, c: int): (k: int)
    requires Pointers(ncol, p, |i|)
    ensures k == -1 || (0 <= c < ncol && p[c] <= k < p[c + 1] && i[k] == r)
  {
    if 0 <= c < ncol then FindRow(i, p[c], p[c + 1], r) else -1
  }

  /** The value of coordinate (r, c) of the stored half: x at its slot, or 0
      for a coordinate outside the pattern. */
  ghost function EntryOf(ncol: nat, p: seq<int>, i: seq<int>, x: seq<real>, r: int, c: int): real
    requires Pointers(ncol, p, |i|) && |x| == |i|
  {
    var k := Slot(ncol, p, i, r, c);
    if k == -1 then 0.0 else x[k]
  }

  /** A `cholmod_sparse` in packed form. The pattern (p, i) is fixed once
      built; the values are updated in place. */
  class Compressed {
    const nrow: nat
    const ncol: nat
    const stype: Symmetry
    const p: seq<int>
    const i: seq<int>
    const x: array<real>

    ghost predicate Valid() {
      WellFormed(nrow, ncol, p, i) && x.Length == |i|
    }

    /** The value of (r, c) in the stored half. */
    ghost function Entry(r: int, c: int): real
      reads x
      requires Valid()
    {
      EntryOf(ncol, p, i, x[..], r, c)
    }

    constructor (nrow: nat, ncol: nat, stype: Symmetry, p: seq<int>, i: seq<int>, xs: seq<real>)
      requires |xs| == |i|
      ensures this.nrow == nrow && this.ncol == ncol && this.stype == stype
      ensures this.p == p && this.i == i && this.x[..] == xs
      ensures fresh(this.x)
    {
      this.nrow, this.ncol, this.stype := nrow, ncol, stype;
      this.p, this.i := p, i;
      this.x := new real[|xs|](k requires 0 <= k < |xs| => xs[k]);
    }
  }
}
