/** The lookup index of a built matrix (the `std::map` at
    sparse_matrix.h:197): packed key of a stored coordinate to its slot in
    `x`, filled column by column (sparse_matrix.cpp:191-207) and searched by
    `getIndex` after the symmetric remap (sparse_matrix.h:129-142). */
module LookupIndex {
  import opened LookupKey
  import opened SymmetricStorage
  import opened CompressedColumn

  /** The index after the inner loop has run over slots from .. to-1 of
      column `col`, starting from `m`; each slot overwrites the key of its
      row (std::map's operator[] assignment). */
  ghost function AddColumn(m: map<int, int>, i: seq<int>, col: int, from: nat, to: nat): map<int, int>
    requires from <= to <= |i|
  {
    if from < to then AddColumn(m, i, col, from, to - 1)[Key(i[to - 1], col) := to - 1]
    else m
  }

  /** The index after the outer loop has run over columns 0 .. j-1. */
  ghost function IndexUpTo(ncol: nat, p: seq<int>, i: seq<int>, j: nat): map<int, int>
    requires Pointers(ncol, p, |i|) && j <= ncol
  {
    if j == 0 then map[]
    else AddColumn(IndexUpTo(ncol, p, i, j - 1), i, j - 1, p[j - 1], p[j])
  }

  /** What buildLookupIndexFromSparse leaves in the map. */
  ghost function IndexOf(ncol: nat, p: seq<int>, i: seq<int>): map<int, int>
    requires Pointers(ncol, p, |i|)
  {
    IndexUpTo(ncol, p, i, ncol)
  }

  /** getIndex after its debug check: remap into the stored half, then -1
      for a key the map lacks, else the slot the map holds. The answer is
      always -1 or a slot of the map; for a map of slots (no negative
      value) it is a slot exactly when the remapped key is present. */
  function GetIndex(sym: Symmetry, m: map<int, int>, row: int, column: int): (k: int)
    ensures k == -1 || k in m.Values
    ensures (forall key :: key in m ==> m[key] >= 0) ==>
      (k != -1 <==> var (r, c) := StoredHalf(sym, row, column); Key(r, c) in m)
  {
    var (r, c) := StoredHalf(sym, row, column);
    if Key(r, c) in m then m[Key(r, c)] else -1
  }

  /** The column under construction: a key is present after the inner loop
      exactly when it was present before or is the key of a row of this
      column seen so far, and that row's key maps to its own slot. */
  lemma {:induction false} AddColumnQuery(m: map<int, int>, i: seq<int>, col: int, from: nat, to: nat, r: int, c: int)
    requires from <= to <= |i|
    requires IsUInt32(col) && IsUInt32(r) && IsUInt32(c)
    requires forall k :: from <= k < to ==> IsUInt32(i[k])
    requires DistinctIn(i, from, to)
    ensures Key(r, c) in AddColumn(m, i, col, from, to) <==>
              Key(r, c) in m || (c == col && FindRow(i, from, to, r) != -1)
    ensures c == col && FindRow(i, from, to, r) != -1 ==>
              AddColumn(m, i, col, from, to)[Key(r, c)] == FindRow(i, from, to, r)
    ensures !(c == col && FindRow(i, from, to, r) != -1) && Key(r, c) in m ==>
              AddColumn(m, i, col, from, to)[Key(r, c)] == m[Key(r, c)]
  {
    if to > from {
      AddColumnQuery(m, i, col, from, to - 1, r, c);
      var last := i[to - 1];
      if r == last && c == col {
        FindRowUnique(i, from, to, to - 1);
      } else {
        if Key(r, c) == Key(last, col) {
          KeyInjective(r, c, last, col);
        }
        if c == col {
          assert FindRow(i, from, to, r) == FindRow(i, from, to - 1, r) by {
            var f := FindRow(i, from, to - 1, r);
            if f != -1 {
              FindRowUnique(i, from, to, f);
            } else {
              FindRowMissing(i, from, to - 1, r);
              FindRowMissing(i, from, to, r);
            }
          }
        }
      }
    }
  }

  /** Over the first j columns of a well-formed matrix, the key of (r, c) is
      present exactly when c < j and (r, c) is stored, and then it maps to
      the slot the linear scan finds. */
  lemma {:induction false} IndexUpToQuery(nrow: nat, ncol: nat, p: seq<int>, i: seq<int>, j: nat, r: int, c: int)
    requires WellFormed(nrow, ncol, p, i) && IsUInt32(nrow) && IsUInt32(ncol) && j <= ncol
    requires IsUInt32(r) && IsUInt32(c)
    ensures Key(r, c) in IndexUpTo(ncol, p, i, j) <==> c < j && Slot(ncol, p, i, r, c) != -1
    ensures Key(r, c) in IndexUpTo(ncol, p, i, j) ==> IndexUpTo(ncol, p, i, j)[Key(r, c)] == Slot(ncol, p, i, r, c)
  {
    if j > 0 {
      IndexUpToQuery(nrow, ncol, p, i, j - 1, r, c);
      ColumnOf(nrow, ncol, p, i, j - 1);
      AddColumnQuery(IndexUpTo(ncol, p, i, j - 1), i, j - 1, p[j - 1], p[j], r, c);
    }
  }

  /** A column adds one fresh key per slot. */
  lemma {:induction false} AddColumnSize(m: map<int, int>, i: seq<int>, col: int, from: nat, to: nat)
    requires from <= to <= |i|
    requires IsUInt32(col)
    requires forall k :: from <= k < to ==> IsUInt32(i[k])
    requires DistinctIn(i, from, to)
    requires forall k :: from <= k < to ==> Key(i[k], col) !in m
    ensures |AddColumn(m, i, col, from, to)| == |m| + (to - from)
  {
    if to > from {
      AddColumnSize(m, i, col, from, to - 1);
      AddColumnQuery(m, i, col, from, to - 1, i[to - 1], col);
      assert FindRow(i, from, to - 1, i[to - 1]) == -1;
    }
  }

  /** The index over the first j columns has exactly p[j] entries. */
  lemma {:induction false} IndexUpToSize(nrow: nat, ncol: nat, p: seq<int>, i: seq<int>, j: nat)
    requires WellFormed(nrow, ncol, p, i) && IsUInt32(nrow) && IsUInt32(ncol) && j <= ncol
    ensures |IndexUpTo(ncol, p, i, j)| == p[j]
  {
    if j > 0 {
      IndexUpToSize(nrow, ncol, p, i, j - 1);
      var m := IndexUpTo(ncol, p, i, j - 1);
      ColumnOf(nrow, ncol, p, i, j - 1);
      forall k | p[j - 1] <= k < p[j]
        ensures Key(i[k], j - 1) !in m
      {
        IndexUpToQuery(nrow, ncol, p, i, j - 1, i[k], j - 1);
      }
      AddColumnSize(m, i, j - 1, p[j - 1], p[j]);
    }
  }

  /** The built index has one entry per stored slot: p[ncol] of them. */
  lemma IndexOfSize(nrow: nat, ncol: nat, p: seq<int>, i: seq<int>)
    requires WellFormed(nrow, ncol, p, i) && IsUInt32(nrow) && IsUInt32(ncol)
    ensures |IndexOf(ncol, p, i)| == p[ncol]
  {
    IndexUpToSize(nrow, ncol, p, i, ncol);
  }

  /** Every stored (i[k], j) resolves to its own slot k: the running counter
      of the source's loop is the slot. */
  lemma IndexOfResolves(nrow: nat, ncol: nat, p: seq<int>, i: seq<int>, j: int, k: int)
    requires WellFormed(nrow, ncol, p, i) && IsUInt32(nrow) && IsUInt32(ncol)
    requires 0 <= j < ncol && p[j] <= k < p[j + 1]
    ensures Key(i[k], j) in IndexOf(ncol, p, i)
    ensures IndexOf(ncol, p, i)[Key(i[k], j)] == k
  {
    ColumnOf(nrow, ncol, p, i, j);
    FindRowUnique(i, p[j], p[j + 1], k);
    IndexUpToQuery(nrow, ncol, p, i, ncol, i[k], j);
  }

  /** getIndex on the built index finds exactly the slot of the remapped
      coordinate: -1 exactly when it is not stored, its slot otherwise. */
  lemma GetIndexFindsSlot(nrow: nat, ncol: nat, p: seq<int>, i: seq<int>, sym: Symmetry, row: int, column: int)
    requires WellFormed(nrow, ncol, p, i) && IsUInt32(nrow) && IsUInt32(ncol)
    requires IsUInt32(row) && IsUInt32(column)
    ensures var (r, c) := StoredHalf(sym, row, column);
      GetIndex(sym, IndexOf(ncol, p, i), row, column) == Slot(ncol, p, i, r, c)
  {
    var (r, c) := StoredHalf(sym, row, column);
    IndexUpToQuery(nrow, ncol, p, i, ncol, r, c);
  }

  /** For a symmetric matrix, (r, c) and (c, r) get the same index. */
  lemma GetIndexSymmetric(sym: Symmetry, m: map<int, int>, row: int, column: int)
    requires sym != Asymmetric
    ensures GetIndex(sym, m, row, column) == GetIndex(sym, m, column, row)
  {
    StoredHalfSymmetric(sym, row, column);
  }
}
