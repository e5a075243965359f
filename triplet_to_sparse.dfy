/** The conversion `build` delegates to `cholmod_triplet_to_sparse`
    (sparse_matrix.cpp:174). CHOLMOD's own algorithm is not part of this
    model; this is a reference conversion with the contract the rest of the
    model relies on: a well-formed packed compressed-column matrix whose
    rows ascend within each column, whose pattern is exactly the set of
    coordinates the triplet holds, and whose value at a coordinate is the
    sum of all triplet values given to that coordinate. The value and row
    arrays get room for max(nnz, stored) slots, as CHOLMOD allocates
    nzmax = nnz when the caller passes triplet->nnz. */
module TripletToSparse {
  import opened CompressedColumn

  /** A compressed-column matrix as plain values. */
  datatype CscData = CscData(p: seq<int>, i: seq<int>, x: seq<real>)

  /** (r, c) is the coordinate of one of the first n triplet entries. */
  predicate Occurs(rows: seq<int>, cols: seq<int>, n: nat, r: int, c: int)
    requires n <= |rows| && n <= |cols|
  {
    n > 0 && ((rows[n - 1] == r && cols[n - 1] == c) || Occurs(rows, cols, n - 1, r, c))
  }

  /** Sum of the values of the first n triplet entries at (r, c): duplicates
      accumulate. */
  function SumAt(rows: seq<int>, cols: seq<int>, vals: seq<real>, n: nat, r: int, c: int): real
    requires n <= |rows| && n <= |cols| && n <= |vals|
  {
    if n == 0 then 0.0
    else SumAt(rows, cols, vals, n - 1, r, c) + (if rows[n - 1] == r && cols[n - 1] == c then vals[n - 1] else 0.0)
  }

  /** Occurs is membership among the entries. */
  lemma {:induction false} OccursIff(rows: seq<int>, cols: seq<int>, n: nat, r: int, c: int)
    requires n <= |rows| && n <= |cols|
    ensures Occurs(rows, cols, n, r, c) <==> exists k :: 0 <= k < n && rows[k] == r && cols[k] == c
  {
    if n > 0 {
      OccursIff(rows, cols, n - 1, r, c);
      if rows[n - 1] == r && cols[n - 1] == c {
        assert exists k :: 0 <= k < n && rows[k] == r && cols[k] == c by {
          assert rows[n - 1] == r && cols[n - 1] == c;
        }
      }
    }
  }

  /** A coordinate no entry names sums to zero. */
  lemma {:induction false} SumAtAbsent(rows: seq<int>, cols: seq<int>, vals: seq<real>, n: nat, r: int, c: int)
    requires n <= |rows| && n <= |cols| && n <= |vals|
    requires !Occurs(rows, cols, n, r, c)
    ensures SumAt(rows, cols, vals, n, r, c) == 0.0
  {
    if n > 0 {
      SumAtAbsent(rows, cols, vals, n - 1, r, c);
    }
  }

  /** The rows below `bound` that occur in column c, in ascending order and
      each once. */
  function ColumnRows(rows: seq<int>, cols: seq<int>, c: int, bound: nat): (rs: seq<int>)
    requires |rows| == |cols|
    ensures |rs| <= bound
  {
    if bound == 0 then []
    else ColumnRows(rows, cols, c, bound - 1) + (if Occurs(rows, cols, |rows|, bound - 1, c) then [bound - 1] else [])
  }

  /** The entries of rs lie in 0 .. bound-1 and ascend strictly. */
  ghost predicate Ascending(rs: seq<int>, bound: int) {
    && (forall t :: 0 <= t < |rs| ==> 0 <= rs[t] < bound)
    && (forall t1, t2 :: 0 <= t1 < t2 < |rs| ==> rs[t1] < rs[t2])
  }

  /** ColumnRows lists rows below `bound`, ascending. */
  lemma {:induction false} ColumnRowsSorted(rows: seq<int>, cols: seq<int>, c: int, bound: nat)
    requires |rows| == |cols|
    ensures Ascending(ColumnRows(rows, cols, c, bound), bound)
  {
    if bound > 0 {
      ColumnRowsSorted(rows, cols, c, bound - 1);
      var prev := ColumnRows(rows, cols, c, bound - 1);
      var added := if Occurs(rows, cols, |rows|, bound - 1, c) then [bound - 1] else [];
      var rs := prev + added;
      assert ColumnRows(rows, cols, c, bound) == rs;
      forall t | 0 <= t < |rs|
        ensures 0 <= rs[t] < bound && (t < |prev| ==> rs[t] == prev[t] < bound - 1)
      {
        if t < |prev| {
          KeptAt(prev, added, t);
        } else {
          AppendedAt(prev, added, t - |prev|);
        }
      }
    }
  }

  /** ColumnRows lists exactly the rows below `bound` that occur in column
      c. */
  lemma {:induction false} ColumnRowsMembers(rows: seq<int>, cols: seq<int>, c: int, bound: nat, r: int)
    requires |rows| == |cols|
    ensures r in ColumnRows(rows, cols, c, bound) <==> 0 <= r < bound && Occurs(rows, cols, |rows|, r, c)
  {
    if bound > 0 {
      ColumnRowsMembers(rows, cols, c, bound - 1, r);
    }
  }

  /** The summed value of each row of `rs` in column c. */
  function ColumnSums(rows: seq<int>, cols: seq<int>, vals: seq<real>, rs: seq<int>, c: int): seq<real>
    requires |rows| == |cols| == |vals|
  {
    seq(|rs|, t requires 0 <= t < |rs| => SumAt(rows, cols, vals, |rows|, rs[t], c))
  }

  /** Columns 0 .. n-1 of the conversion, each column appended in turn. */
  function CompressColumns(nrow: nat, rows: seq<int>, cols: seq<int>, vals: seq<real>, n: nat): (r: CscData)
    requires |rows| == |cols| == |vals|
    ensures |r.p| == n + 1 && r.p[0] == 0 && |r.i| == |r.x| == r.p[n]
  {
    if n == 0 then CscData([0], [], [])
    else
      var prev := CompressColumns(nrow, rows, cols, vals, n - 1);
      var rs := ColumnRows(rows, cols, n - 1, nrow);
      CscData(prev.p + [prev.p[n - 1] + |rs|], prev.i + rs, prev.x + ColumnSums(rows, cols, vals, rs, n - 1))
  }

  /** The conversion: columns 0 .. ncol-1, padded to max(nnz, stored)
      slots. */
  function Compress(nrow: nat, ncol: nat, rows: seq<int>, cols: seq<int>, vals: seq<real>): CscData
    requires |rows| == |cols| == |vals|
  {
    var c := CompressColumns(nrow, rows, cols, vals, ncol);
    var pad := if |rows| > |c.i| then |rows| - |c.i| else 0;
    CscData(c.p, c.i + seq(pad, _ => 0), c.x + seq(pad, _ => 0.0))
  }

  /** Column pointers of the first n columns are nondecreasing and end at
      the number of stored slots. */
  lemma {:induction false} CompressColumnsPointers(nrow: nat, rows: seq<int>, cols: seq<int>, vals: seq<real>, n: nat)
    requires |rows| == |cols| == |vals|
    ensures var r := CompressColumns(nrow, rows, cols, vals, n);
      Pointers(n, r.p, |r.i|) && r.p[n] == |r.i|
  {
    if n > 0 {
      CompressColumnsPointers(nrow, rows, cols, vals, n - 1);
      var prev := CompressColumns(nrow, rows, cols, vals, n - 1);
      var r := CompressColumns(nrow, rows, cols, vals, n);
      assert r.p == prev.p + [prev.p[n - 1] + (r.p[n] - prev.p[n - 1])];
      forall j1, j2 | 0 <= j1 <= j2 <= n
        ensures r.p[j1] <= r.p[j2]
      {
        if j2 < n {
          assert r.p[j1] == prev.p[j1] && r.p[j2] == prev.p[j2];
        } else {
          assert r.p[j1] <= prev.p[n - 1] || j1 == n;
        }
      }
    }
  }

  /** Appending column n-1 keeps the first n-1 columns as they were. */
  lemma PrefixKept(nrow: nat, rows: seq<int>, cols: seq<int>, vals: seq<real>, n: nat)
    requires |rows| == |cols| == |vals|
    requires n > 0
    ensures var prev := CompressColumns(nrow, rows, cols, vals, n - 1);
      var r := CompressColumns(nrow, rows, cols, vals, n);
      && r.p[..n] == prev.p
      && r.i[..|prev.i|] == prev.i
      && r.x[..|prev.x|] == prev.x
  {
    var prev := CompressColumns(nrow, rows, cols, vals, n - 1);
    var r := CompressColumns(nrow, rows, cols, vals, n);
    assert r.p == prev.p + [r.p[n]];
  }

  /** One column more: the definition of CompressColumns unfolded once. */
  lemma CompressColumnsStep(nrow: nat, rows: seq<int>, cols: seq<int>, vals: seq<real>, n: nat)
    requires |rows| == |cols| == |vals|
    requires n > 0
    ensures var prev := CompressColumns(nrow, rows, cols, vals, n - 1);
      var rs := ColumnRows(rows, cols, n - 1, nrow);
      CompressColumns(nrow, rows, cols, vals, n) ==
        CscData(prev.p + [prev.p[n - 1] + |rs|], prev.i + rs, prev.x + ColumnSums(rows, cols, vals, rs, n - 1))
  {
  }

  /** Column j of the conversion spans |ColumnRows(j)| slots, within the
      stored ones. */
  lemma {:induction false} ColumnBounds(nrow: nat, rows: seq<int>, cols: seq<int>, vals: seq<real>, n: nat, j: nat)
    requires |rows| == |cols| == |vals|
    requires j < n
    ensures var r := CompressColumns(nrow, rows, cols, vals, n);
      && r.p[j + 1] == r.p[j] + |ColumnRows(rows, cols, j, nrow)|
      && 0 <= r.p[j] && r.p[j + 1] <= |r.i|
  {
    var prev := CompressColumns(nrow, rows, cols, vals, n - 1);
    CompressColumnsStep(nrow, rows, cols, vals, n);
    if j < n - 1 {
      ColumnBounds(nrow, rows, cols, vals, n - 1, j);
      PrefixKept(nrow, rows, cols, vals, n);
    }
  }

  /** Appending a column lays its rows and values right after the slots
      already stored. */
  lemma AppendedAt<T>(front: seq<T>, back: seq<T>, t: int)
    requires 0 <= t < |back|
    ensures (front + back)[|front| + t] == back[t]
  {
  }

  /** Appending a column keeps the slots already stored. */
  lemma KeptAt<T>(front: seq<T>, back: seq<T>, k: int)
    requires 0 <= k < |front|
    ensures (front + back)[k] == front[k]
  {
  }

  /** Appending a column: its t-th row and value land at slot p[j] + t of
      the new last column j. */
  lemma LastColumnAt(prev: CscData, r: CscData, rs: seq<int>, sums: seq<real>, t: int)
    requires |prev.p| > 0 && prev.p[|prev.p| - 1] == |prev.i| == |prev.x| && |sums| == |rs|
    requires r == CscData(prev.p + [prev.p[|prev.p| - 1] + |rs|], prev.i + rs, prev.x + sums)
    requires 0 <= t < |rs|
    ensures 0 <= r.p[|prev.p| - 1] + t < |r.i| && |r.x| == |r.i|
    ensures r.i[r.p[|prev.p| - 1] + t] == rs[t] && r.x[r.p[|prev.p| - 1] + t] == sums[t]
  {
    KeptAt(prev.p, [prev.p[|prev.p| - 1] + |rs|], |prev.p| - 1);
    AppendedAt(prev.i, rs, t);
    AppendedAt(prev.x, sums, t);
  }

  /** Appending a column leaves slot k of an earlier column j as it was. */
  lemma EarlierColumnAt(prev: CscData, r: CscData, rs: seq<int>, sums: seq<real>, j: int, k: int)
    requires |prev.p| > 0 && |prev.i| == |prev.x|
    requires r == CscData(prev.p + [prev.p[|prev.p| - 1] + |rs|], prev.i + rs, prev.x + sums)
    requires 0 <= j < |prev.p| && 0 <= k < |prev.i|
    ensures r.p[j] == prev.p[j] && k < |r.i| && k < |r.x|
    ensures r.i[k] == prev.i[k] && r.x[k] == prev.x[k]
  {
    KeptAt(prev.p, [prev.p[|prev.p| - 1] + |rs|], j);
    KeptAt(prev.i, rs, k);
    KeptAt(prev.x, sums, k);
  }

  /** Slot t of column j holds the t-th row of ColumnRows(j) and that
      row's sum. */
  lemma {:induction false} ColumnAt(nrow: nat, rows: seq<int>, cols: seq<int>, vals: seq<real>, n: nat, j: nat, t: int)
    requires |rows| == |cols| == |vals|
    requires j < n && 0 <= t < |ColumnRows(rows, cols, j, nrow)|
    ensures var r := CompressColumns(nrow, rows, cols, vals, n);
      var rs := ColumnRows(rows, cols, j, nrow);
      && 0 <= r.p[j] + t < |r.i|
      && r.i[r.p[j] + t] == rs[t]
      && r.x[r.p[j] + t] == SumAt(rows, cols, vals, |rows|, rs[t], j)
  {
    if j == n - 1 {
      NewColumnAt(nrow, rows, cols, vals, n, t);
    } else {
      var prev := CompressColumns(nrow, rows, cols, vals, n - 1);
      var rs := ColumnRows(rows, cols, n - 1, nrow);
      CompressColumnsStep(nrow, rows, cols, vals, n);
      ColumnAt(nrow, rows, cols, vals, n - 1, j, t);
      EarlierColumnAt(prev, CompressColumns(nrow, rows, cols, vals, n), rs, ColumnSums(rows, cols, vals, rs, n - 1), j, prev.p[j] + t);
    }
  }

  /** ColumnAt for the column appended last. */
  lemma NewColumnAt(nrow: nat, rows: seq<int>, cols: seq<int>, vals: seq<real>, n: nat, t: int)
    requires |rows| == |cols| == |vals|
    requires 0 < n && 0 <= t < |ColumnRows(rows, cols, n - 1, nrow)|
    ensures var r := CompressColumns(nrow, rows, cols, vals, n);
      var rs := ColumnRows(rows, cols, n - 1, nrow);
      && 0 <= r.p[n - 1] + t < |r.i|
      && r.i[r.p[n - 1] + t] == rs[t]
      && r.x[r.p[n - 1] + t] == SumAt(rows, cols, vals, |rows|, rs[t], n - 1)
  {
    var prev := CompressColumns(nrow, rows, cols, vals, n - 1);
    var rs := ColumnRows(rows, cols, n - 1, nrow);
    var sums := ColumnSums(rows, cols, vals, rs, n - 1);
    CompressColumnsStep(nrow, rows, cols, vals, n);
    LastColumnAt(prev, CompressColumns(nrow, rows, cols, vals, n), rs, sums, t);
  }

  /** Slot k of column j holds the row ColumnRows(j) lists at k - p[j]. */
  lemma SlotOfColumn(nrow: nat, rows: seq<int>, cols: seq<int>, vals: seq<real>, n: nat, j: nat, k: int)
    requires |rows| == |cols| == |vals|
    requires j < n
    requires var r := CompressColumns(nrow, rows, cols, vals, n); r.p[j] <= k < r.p[j + 1]
    ensures var r := CompressColumns(nrow, rows, cols, vals, n);
      var rs := ColumnRows(rows, cols, j, nrow);
      0 <= k - r.p[j] < |rs| && 0 <= k < |r.i| && r.i[k] == rs[k - r.p[j]]
      && r.x[k] == SumAt(rows, cols, vals, |rows|, rs[k - r.p[j]], j)
  {
    ColumnBounds(nrow, rows, cols, vals, n, j);
    var r := CompressColumns(nrow, rows, cols, vals, n);
    ColumnAt(nrow, rows, cols, vals, n, j, k - r.p[j]);
  }

  /** Column pointers over the slots of i, rows in 0 .. nrow-1 in the
      slots in use, ascending within each column. */
  ghost predicate SortedPattern(nrow: nat, ncol: nat, p: seq<int>, i: seq<int>) {
    && Pointers(ncol, p, |i|)
    && (forall k :: 0 <= k < p[ncol] ==> 0 <= i[k] < nrow)
    && RowsSorted(ncol, p, i)
  }

  /** Before padding, the conversion keeps rows in range and ascending in
      each column. */
  lemma CompressColumnsSorted(nrow: nat, rows: seq<int>, cols: seq<int>, vals: seq<real>, n: nat)
    requires |rows| == |cols| == |vals|
    ensures var r := CompressColumns(nrow, rows, cols, vals, n);
      SortedPattern(nrow, n, r.p, r.i)
  {
    var r := CompressColumns(nrow, rows, cols, vals, n);
    CompressColumnsPointers(nrow, rows, cols, vals, n);
    forall j | 0 <= j < n
      ensures ColumnSorted(n, r.p, r.i, j)
    {
      ColumnRowsSorted(rows, cols, j, nrow);
      forall k1, k2 | r.p[j] <= k1 < k2 < r.p[j + 1]
        ensures r.i[k1] < r.i[k2]
      {
        SlotOfColumn(nrow, rows, cols, vals, n, j, k1);
        SlotOfColumn(nrow, rows, cols, vals, n, j, k2);
      }
    }
    forall k | 0 <= k < r.p[n]
      ensures 0 <= r.i[k] < nrow
    {
      var j := ColumnOfSlot(n, r.p, k);
      SlotOfColumn(nrow, rows, cols, vals, n, j, k);
      ColumnRowsSorted(rows, cols, j, nrow);
    }
  }

  /** d holds the slots of c at the same positions, and maybe more. */
  ghost predicate KeepsSlots(c: CscData, d: CscData) {
    && |c.i| <= |d.i| && |c.x| <= |d.x|
    && (forall k :: 0 <= k < |c.i| ==> d.i[k] == c.i[k])
    && (forall k :: 0 <= k < |c.x| ==> d.x[k] == c.x[k])
  }

  /** Padding leaves the pointers and the stored slots as they are. */
  lemma CompressPadding(nrow: nat, ncol: nat, rows: seq<int>, cols: seq<int>, vals: seq<real>)
    requires |rows| == |cols| == |vals|
    ensures var c := CompressColumns(nrow, rows, cols, vals, ncol);
      var d := Compress(nrow, ncol, rows, cols, vals);
      && d.p == c.p && |d.i| == |d.x|
      && (|d.i| == if |rows| > c.p[ncol] then |rows| else c.p[ncol])
      && KeepsSlots(c, d)
  {
  }

  /** Extra slots past the last column keep a sorted pattern well formed
      and sorted. */
  lemma PaddedPattern(nrow: nat, ncol: nat, c: CscData, d: CscData)
    requires SortedPattern(nrow, ncol, c.p, c.i) && d.p == c.p && KeepsSlots(c, d)
    ensures WellFormed(nrow, ncol, d.p, d.i) && RowsSorted(ncol, d.p, d.i)
  {
    forall j | 0 <= j < ncol
      ensures ColumnSorted(ncol, d.p, d.i, j) && ColumnDistinct(ncol, d.p, d.i, j)
    {
      assert ColumnSorted(ncol, c.p, c.i, j);
      assert d.p[j + 1] <= d.p[ncol];
    }
  }

  /** The conversion is a well-formed compressed-column matrix with rows
      ascending in each column, and its slot count is max(nnz, stored). */
  lemma CompressWellFormed(nrow: nat, ncol: nat, rows: seq<int>, cols: seq<int>, vals: seq<real>)
    requires |rows| == |cols| == |vals|
    ensures var r := Compress(nrow, ncol, rows, cols, vals);
      && WellFormed(nrow, ncol, r.p, r.i)
      && RowsSorted(ncol, r.p, r.i)
      && |r.x| == |r.i|
      && |r.i| == if |rows| > r.p[ncol] then |rows| else r.p[ncol]
  {
    var c := CompressColumns(nrow, rows, cols, vals, ncol);
    var r := Compress(nrow, ncol, rows, cols, vals);
    CompressColumnsSorted(nrow, rows, cols, vals, ncol);
    CompressPadding(nrow, ncol, rows, cols, vals);
    PaddedPattern(nrow, ncol, c, r);
  }

  /** The column whose slot range holds slot k. */
  lemma ColumnOfSlot(ncol: nat, p: seq<int>, k: int) returns (j: nat)
    requires |p| == ncol + 1 && p[0] <= k < p[ncol]
    ensures j < ncol && p[j] <= k < p[j + 1]
  {
    j := 0;
    while p[j + 1] <= k
      invariant j < ncol && p[j] <= k
      decreases ncol - j
    {
      j := j + 1;
    }
  }

  /** The scan over lo .. hi-1 finds the same slot in two row arrays that
      agree there. */
  lemma {:induction false} FindRowAgrees(i1: seq<int>, i2: seq<int>, lo: int, hi: int, r: int)
    requires 0 <= lo <= hi <= |i1| && hi <= |i2|
    requires forall k :: lo <= k < hi ==> i1[k] == i2[k]
    ensures FindRow(i1, lo, hi, r) == FindRow(i2, lo, hi, r)
    decreases hi - lo
  {
    if lo < hi {
      FindRowAgrees(i1, i2, lo + 1, hi, r);
    }
  }

  /** Slots past the last column change no coordinate's slot or value. */
  lemma EntryKept(ncol: nat, c: CscData, d: CscData, r: int, col: int)
    requires Pointers(ncol, c.p, |c.i|) && |c.x| == |c.i| && c.p[ncol] == |c.i|
    requires d.p == c.p && |d.x| == |d.i| && KeepsSlots(c, d)
    ensures Pointers(ncol, d.p, |d.i|)
    ensures Slot(ncol, d.p, d.i, r, col) == Slot(ncol, c.p, c.i, r, col)
    ensures EntryOf(ncol, d.p, d.i, d.x, r, col) == EntryOf(ncol, c.p, c.i, c.x, r, col)
  {
    if 0 <= col < ncol {
      assert c.p[col + 1] <= c.p[ncol];
      FindRowAgrees(c.i, d.i, c.p[col], c.p[col + 1], r);
    }
  }

  /** A row held once in column c is found at its slot, with its value. */
  lemma StoredAt(ncol: nat, p: seq<int>, i: seq<int>, x: seq<real>, r: int, c: int, k: int)
    requires Pointers(ncol, p, |i|) && |x| == |i|
    requires 0 <= c < ncol && p[c] <= k < p[c + 1] && i[k] == r
    requires ColumnSorted(ncol, p, i, c)
    ensures Slot(ncol, p, i, r, c) == k
    ensures EntryOf(ncol, p, i, x, r, c) == x[k]
  {
    assert p[c + 1] <= p[ncol];
    FindRowUnique(i, p[c], p[c + 1], k);
  }

  /** A row column c does not hold has no slot and reads as 0. */
  lemma AbsentAt(ncol: nat, p: seq<int>, i: seq<int>, x: seq<real>, r: int, c: int)
    requires Pointers(ncol, p, |i|) && |x| == |i| && 0 <= c < ncol
    requires forall k :: p[c] <= k < p[c + 1] ==> i[k] != r
    ensures Slot(ncol, p, i, r, c) == -1
    ensures EntryOf(ncol, p, i, x, r, c) == 0.0
  {
    assert p[c + 1] <= p[ncol];
    FindRowMissing(i, p[c], p[c + 1], r);
  }

  /** A coordinate some triplet entry names is stored in its column, with
      the sum of the values given to it. */
  lemma ColumnsEntryStored(nrow: nat, rows: seq<int>, cols: seq<int>, vals: seq<real>, n: nat, r: int, c: int)
    requires |rows| == |cols| == |vals|
    requires 0 <= r < nrow && 0 <= c < n && Occurs(rows, cols, |rows|, r, c)
    ensures var cc := CompressColumns(nrow, rows, cols, vals, n);
      Pointers(n, cc.p, |cc.i|)
      && Slot(n, cc.p, cc.i, r, c) != -1
      && EntryOf(n, cc.p, cc.i, cc.x, r, c) == SumAt(rows, cols, vals, |rows|, r, c)
  {
    var cc := CompressColumns(nrow, rows, cols, vals, n);
    CompressColumnsSorted(nrow, rows, cols, vals, n);
    ColumnBounds(nrow, rows, cols, vals, n, c);
    var rs := ColumnRows(rows, cols, c, nrow);
    ColumnRowsMembers(rows, cols, c, nrow, r);
    var t :| 0 <= t < |rs| && rs[t] == r;
    ColumnAt(nrow, rows, cols, vals, n, c, t);
    StoredAt(n, cc.p, cc.i, cc.x, r, c, cc.p[c] + t);
  }

  /** A coordinate no triplet entry names is not stored, and sums to 0. */
  lemma ColumnsEntryAbsent(nrow: nat, rows: seq<int>, cols: seq<int>, vals: seq<real>, n: nat, r: int, c: int)
    requires |rows| == |cols| == |vals|
    requires 0 <= c < n && !Occurs(rows, cols, |rows|, r, c)
    ensures var cc := CompressColumns(nrow, rows, cols, vals, n);
      Pointers(n, cc.p, |cc.i|)
      && Slot(n, cc.p, cc.i, r, c) == -1
      && EntryOf(n, cc.p, cc.i, cc.x, r, c) == SumAt(rows, cols, vals, |rows|, r, c)
  {
    var cc := CompressColumns(nrow, rows, cols, vals, n);
    CompressColumnsPointers(nrow, rows, cols, vals, n);
    ColumnBounds(nrow, rows, cols, vals, n, c);
    forall k | cc.p[c] <= k < cc.p[c + 1]
      ensures cc.i[k] != r
    {
      SlotOfColumn(nrow, rows, cols, vals, n, c, k);
      ColumnRowsMembers(rows, cols, c, nrow, r);
    }
    AbsentAt(n, cc.p, cc.i, cc.x, r, c);
    SumAtAbsent(rows, cols, vals, |rows|, r, c);
  }

  /** After the conversion a coordinate of the matrix is stored exactly when
      some triplet entry names it, and its value is the sum of all
      values given to it. */
  lemma CompressEntry(nrow: nat, ncol: nat, rows: seq<int>, cols: seq<int>, vals: seq<real>, r: int, c: int)
    requires |rows| == |cols| == |vals|
    requires 0 <= r < nrow && 0 <= c < ncol
    ensures var d := Compress(nrow, ncol, rows, cols, vals);
      Pointers(ncol, d.p, |d.i|) && |d.x| == |d.i|
      && (Slot(ncol, d.p, d.i, r, c) != -1 <==> Occurs(rows, cols, |rows|, r, c))
      && EntryOf(ncol, d.p, d.i, d.x, r, c) == SumAt(rows, cols, vals, |rows|, r, c)
  {
    var d := Compress(nrow, ncol, rows, cols, vals);
    var cc := CompressColumns(nrow, rows, cols, vals, ncol);
    CompressColumnsPointers(nrow, rows, cols, vals, ncol);
    CompressPadding(nrow, ncol, rows, cols, vals);
    EntryKept(ncol, cc, d, r, c);
    if Occurs(rows, cols, |rows|, r, c) {
      ColumnsEntryStored(nrow, rows, cols, vals, ncol, r, c);
    } else {
      ColumnsEntryAbsent(nrow, rows, cols, vals, ncol, r, c);
    }
  }

  /** Every coordinate of the matrix holds the sum of the triplet values
      given to it. */
  ghost predicate HoldsSums(nrow: nat, ncol: nat, d: CscData, rows: seq<int>, cols: seq<int>, vals: seq<real>)
    requires Pointers(ncol, d.p, |d.i|) && |d.x| == |d.i| && |rows| == |cols| == |vals|
  {
    forall r, c :: 0 <= r < nrow && 0 <= c < ncol ==>
      EntryOf(ncol, d.p, d.i, d.x, r, c) == SumAt(rows, cols, vals, |rows|, r, c)
  }

  /** CompressEntry for every coordinate of the matrix at once. */
  lemma CompressEntries(nrow: nat, ncol: nat, rows: seq<int>, cols: seq<int>, vals: seq<real>)
    requires |rows| == |cols| == |vals|
    ensures var d := Compress(nrow, ncol, rows, cols, vals);
      Pointers(ncol, d.p, |d.i|) && |d.x| == |d.i| && HoldsSums(nrow, ncol, d, rows, cols, vals)
  {
    var d := Compress(nrow, ncol, rows, cols, vals);
    CompressWellFormed(nrow, ncol, rows, cols, vals);
    forall r, c | 0 <= r < nrow && 0 <= c < ncol
      ensures EntryOf(ncol, d.p, d.i, d.x, r, c) == SumAt(rows, cols, vals, |rows|, r, c)
    {
      CompressEntry(nrow, ncol, rows, cols, vals, r, c);
    }
  }
}
