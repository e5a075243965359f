/** The value transformation of setNullSpace (sparse_matrix.cpp:114-136)
    on a compressed-column matrix: first every stored value at (row, j) is
    scaled by v[row] * v[j], then every stored diagonal (t, t) with v[t] == 0
    is set to 1. Each pass is given by a reference function that follows the
    source's loop, and the lemmas say what the result is slot by slot. */
module NullSpace {
  import opened CompressedColumn

  /** x with slots lo .. hi-1 (those of column j) each scaled by
      v[row] * v[j], in the order the inner loop visits them. */
  function ScaleSlots(x: seq<real>, rows: seq<int>, vs: seq<real>, j: int, lo: nat, hi: nat): (r: seq<real>)
    requires lo <= hi <= |x| && hi <= |rows| && 0 <= j < |vs|
    requires forall k :: lo <= k < hi ==> 0 <= rows[k] < |vs|
    ensures |r| == |x|
  {
    if lo == hi then x
    else ScaleSlots(x, rows, vs, j, lo, hi - 1)[hi - 1 := x[hi - 1] * (vs[rows[hi - 1]] * vs[j])]
  }

  lemma {:induction false} ScaleSlotsAt(x: seq<real>, rows: seq<int>, vs: seq<real>, j: int, lo: nat, hi: nat, k: int)
    requires lo <= hi <= |x| && hi <= |rows| && 0 <= j < |vs|
    requires forall k :: lo <= k < hi ==> 0 <= rows[k] < |vs|
    requires 0 <= k < |x|
    ensures ScaleSlots(x, rows, vs, j, lo, hi)[k] == if lo <= k < hi then x[k] * (vs[rows[k]] * vs[j]) else x[k]
  {
    if lo < hi {
      ScaleSlotsAt(x, rows, vs, j, lo, hi - 1, k);
    }
  }

  /** One more slot of the inner loop. */
  lemma ScaleSlotsStep(x: seq<real>, rows: seq<int>, vs: seq<real>, j: int, lo: nat, m: nat, prev: seq<real>, scaled: real, cur: seq<real>)
    requires lo <= m && m + 1 <= |x| && m + 1 <= |rows| && 0 <= j < |vs|
    requires forall k :: lo <= k < m + 1 ==> 0 <= rows[k] < |vs|
    requires prev == ScaleSlots(x, rows, vs, j, lo, m)
    requires scaled == x[m] * (vs[rows[m]] * vs[j]) && cur == prev[m := scaled]
    ensures cur == ScaleSlots(x, rows, vs, j, lo, m + 1)
  {
  }

  /** The first pass over columns 0 .. j-1. */
  ghost function ScaledColumns(nrow: nat, ncol: nat, p: seq<int>, i: seq<int>, x0: seq<real>, vs: seq<real>, j: nat): (r: seq<real>)
    requires WellFormed(nrow, ncol, p, i) && |x0| == |i| && nrow <= |vs| && ncol <= |vs| && j <= ncol
    ensures |r| == |x0|
  {
    if j == 0 then x0
    else
      assert 0 <= p[j - 1] <= p[j] <= p[ncol];
      ScaleSlots(ScaledColumns(nrow, ncol, p, i, x0, vs, j - 1), i, vs, j - 1, p[j - 1], p[j])
  }

  /** After the first pass over columns below j, a slot of such a column
      holds its original value times v[row] * v[column]; every other slot
      holds its original value. */
  lemma {:induction false} ScaledColumnsAt(nrow: nat, ncol: nat, p: seq<int>, i: seq<int>, x0: seq<real>, vs: seq<real>, j: nat, c: int, k: int)
    requires WellFormed(nrow, ncol, p, i) && |x0| == |i| && nrow <= |vs| && ncol <= |vs| && j <= ncol
    requires 0 <= c < ncol && p[c] <= k < p[c + 1]
    ensures ScaledColumns(nrow, ncol, p, i, x0, vs, j)[k] == if c < j then x0[k] * (vs[i[k]] * vs[c]) else x0[k]
  {
    assert p[c + 1] <= p[ncol];
    if j > 0 {
      ScaledColumnsAt(nrow, ncol, p, i, x0, vs, j - 1, c, k);
      assert 0 <= p[j - 1] <= p[j] <= p[ncol];
      ScaleSlotsAt(ScaledColumns(nrow, ncol, p, i, x0, vs, j - 1), i, vs, j - 1, p[j - 1], p[j], k);
      if c < j - 1 {
        assert p[c + 1] <= p[j - 1];
      } else if c > j - 1 {
        assert p[j] <= p[c];
      }
    }
  }

  /** The first pass leaves the slots past the pattern alone. */
  lemma {:induction false} ScaledColumnsBeyond(nrow: nat, ncol: nat, p: seq<int>, i: seq<int>, x0: seq<real>, vs: seq<real>, j: nat, k: int)
    requires WellFormed(nrow, ncol, p, i) && |x0| == |i| && nrow <= |vs| && ncol <= |vs| && j <= ncol
    requires p[ncol] <= k < |x0|
    ensures ScaledColumns(nrow, ncol, p, i, x0, vs, j)[k] == x0[k]
  {
    if j > 0 {
      ScaledColumnsBeyond(nrow, ncol, p, i, x0, vs, j - 1, k);
      assert 0 <= p[j - 1] <= p[j] <= p[ncol];
      ScaleSlotsAt(ScaledColumns(nrow, ncol, p, i, x0, vs, j - 1), i, vs, j - 1, p[j - 1], p[j], k);
    }
  }

  /** The second pass over t' < t: setting (t', t') to 1 for v[t'] == 0
      writes the diagonal slot of column t' when it is stored, and nothing
      when it is not. */
  ghost function MarkDiagonals(ncol: nat, p: seq<int>, i: seq<int>, x: seq<real>, vs: seq<real>, t: nat): (r: seq<real>)
    requires Pointers(ncol, p, |i|) && |x| == |i| && t <= |vs|
    ensures |r| == |x|
  {
    if t == 0 then x
    else
      var prev := MarkDiagonals(ncol, p, i, x, vs, t - 1);
      var k := Slot(ncol, p, i, t - 1, t - 1);
      if vs[t - 1] != 0.0 || k == -1 then prev
      else
        assert p[t] <= p[ncol];
        prev[k := 1.0]
  }

  /** One step of the second pass changes at most the diagonal slot of
      column t-1. */
  lemma MarkStep(ncol: nat, p: seq<int>, i: seq<int>, x: seq<real>, vs: seq<real>, t: nat, k: int)
    requires Pointers(ncol, p, |i|) && |x| == |i| && 0 < t <= |vs| && 0 <= k < |x|
    ensures MarkDiagonals(ncol, p, i, x, vs, t)[k] ==
      if vs[t - 1] == 0.0 && Slot(ncol, p, i, t - 1, t - 1) == k then 1.0
      else MarkDiagonals(ncol, p, i, x, vs, t - 1)[k]
  {
  }

  /** One more step of the diagonal pass, for the loop that runs it. */
  lemma MarkDiagonalsNext(ncol: nat, p: seq<int>, i: seq<int>, x: seq<real>, vs: seq<real>, t: nat, prev: seq<real>, cur: seq<real>)
    requires Pointers(ncol, p, |i|) && |x| == |i| && t < |vs|
    requires prev == MarkDiagonals(ncol, p, i, x, vs, t)
    requires var k := Slot(ncol, p, i, t, t);
      cur == if vs[t] != 0.0 || k == -1 then prev else prev[k := 1.0]
    ensures cur == MarkDiagonals(ncol, p, i, x, vs, t + 1)
  {
  }

  /** In a well-formed matrix, slot k of column c is the stored diagonal
      of column t exactly when c == t and its row is t. */
  lemma DiagonalSlotIs(nrow: nat, ncol: nat, p: seq<int>, i: seq<int>, t: int, c: int, k: int)
    requires WellFormed(nrow, ncol, p, i)
    requires 0 <= c < ncol && p[c] <= k < p[c + 1]
    ensures Slot(ncol, p, i, t, t) == k <==> i[k] == c && c == t
  {
    ColumnOf(nrow, ncol, p, i, c);
    if i[k] == c && c == t {
      FindRowUnique(i, p[c], p[c + 1], k);
    } else if 0 <= t < ncol && c < t {
      assert p[c + 1] <= p[t];
    } else if 0 <= t < ncol && t < c {
      assert p[t + 1] <= p[c];
    }
  }

  /** After the second pass over t' < t, a slot of column c holds 1 when it
      is the diagonal of a column c < t with v[c] == 0, and its value before
      the pass otherwise. */
  lemma {:induction false} MarkDiagonalsAt(nrow: nat, ncol: nat, p: seq<int>, i: seq<int>, x: seq<real>, vs: seq<real>, t: nat, c: int, k: int)
    requires WellFormed(nrow, ncol, p, i) && |x| == |i| && t <= |vs| && ncol <= |vs|
    requires 0 <= c < ncol && p[c] <= k < p[c + 1]
    ensures MarkDiagonals(ncol, p, i, x, vs, t)[k] == if i[k] == c && c < t && vs[c] == 0.0 then 1.0 else x[k]
  {
    assert p[c + 1] <= p[ncol];
    if t > 0 {
      MarkDiagonalsAt(nrow, ncol, p, i, x, vs, t - 1, c, k);
      MarkStep(ncol, p, i, x, vs, t, k);
      DiagonalSlotIs(nrow, ncol, p, i, t - 1, c, k);
      ghost var before := MarkDiagonals(ncol, p, i, x, vs, t - 1)[k];
      ghost var after := MarkDiagonals(ncol, p, i, x, vs, t)[k];
      ghost var hit := Slot(ncol, p, i, t - 1, t - 1) == k;
      assert A: before == if i[k] == c && c < t - 1 && vs[c] == 0.0 then 1.0 else x[k];
      assert B: after == if vs[t - 1] == 0.0 && hit then 1.0 else before;
      assert C: hit <==> i[k] == c && c == t - 1;
      MarkCase(MarkDiagonals(ncol, p, i, x, vs, t - 1)[k], MarkDiagonals(ncol, p, i, x, vs, t)[k], x[k],
        Slot(ncol, p, i, t - 1, t - 1) == k, i[k] == c, c, t, vs[t - 1], vs[c]);
    }
  }

  /** The case analysis of one diagonal step, on values: `hit` says the
      step writes slot k, `diag` that slot k holds the diagonal of its
      column c. */
  lemma MarkCase(before: real, after: real, x: real, hit: bool, diag: bool, c: int, t: int, vt: real, vc: real)
    requires before == if diag && c < t - 1 && vc == 0.0 then 1.0 else x
    requires after == if vt == 0.0 && hit then 1.0 else before
    requires hit <==> diag && c == t - 1
    requires c == t - 1 ==> vt == vc
    ensures after == if diag && c < t && vc == 0.0 then 1.0 else x
  {
  }

  /** The second pass leaves the slots past the pattern alone. */
  lemma {:induction false} MarkDiagonalsBeyond(ncol: nat, p: seq<int>, i: seq<int>, x: seq<real>, vs: seq<real>, t: nat, k: int)
    requires Pointers(ncol, p, |i|) && |x| == |i| && t <= |vs|
    requires p[ncol] <= k < |x|
    ensures MarkDiagonals(ncol, p, i, x, vs, t)[k] == x[k]
  {
    if t > 0 {
      MarkDiagonalsBeyond(ncol, p, i, x, vs, t - 1, k);
      if vs[t - 1] == 0.0 && Slot(ncol, p, i, t - 1, t - 1) != -1 {
        assert p[t] <= p[ncol];
      }
    }
  }

  /** The values setNullSpace(v) leaves, for v of size |vs|. */
  ghost function NullSpaced(nrow: nat, ncol: nat, p: seq<int>, i: seq<int>, x0: seq<real>, vs: seq<real>): seq<real>
    requires WellFormed(nrow, ncol, p, i) && |x0| == |i| && nrow <= |vs| && ncol <= |vs|
  {
    MarkDiagonals(ncol, p, i, ScaledColumns(nrow, ncol, p, i, x0, vs, ncol), vs, |vs|)
  }

  /** setNullSpace slot by slot: every stored value at (row, c) is scaled
      by v[row] * v[c], except that a stored diagonal (c, c) with v[c] == 0
      becomes 1; slots past the pattern keep their values. */
  lemma NullSpacedEntries(nrow: nat, ncol: nat, p: seq<int>, i: seq<int>, x0: seq<real>, vs: seq<real>)
    requires WellFormed(nrow, ncol, p, i) && |x0| == |i| && nrow <= |vs| && ncol <= |vs|
    ensures |NullSpaced(nrow, ncol, p, i, x0, vs)| == |x0|
    ensures forall c, k :: 0 <= c < ncol && p[c] <= k < p[c + 1] ==>
      NullSpaced(nrow, ncol, p, i, x0, vs)[k] ==
        if i[k] == c && vs[c] == 0.0 then 1.0 else x0[k] * (vs[i[k]] * vs[c])
    ensures forall k :: p[ncol] <= k < |x0| ==> NullSpaced(nrow, ncol, p, i, x0, vs)[k] == x0[k]
  {
    var x1 := ScaledColumns(nrow, ncol, p, i, x0, vs, ncol);
    forall c, k | 0 <= c < ncol && p[c] <= k < p[c + 1]
      ensures NullSpaced(nrow, ncol, p, i, x0, vs)[k] ==
        if i[k] == c && vs[c] == 0.0 then 1.0 else x0[k] * (vs[i[k]] * vs[c])
    {
      ScaledColumnsAt(nrow, ncol, p, i, x0, vs, ncol, c, k);
      MarkDiagonalsAt(nrow, ncol, p, i, x1, vs, |vs|, c, k);
    }
    forall k | p[ncol] <= k < |x0|
      ensures NullSpaced(nrow, ncol, p, i, x0, vs)[k] == x0[k]
    {
      ScaledColumnsBeyond(nrow, ncol, p, i, x0, vs, ncol, k);
      MarkDiagonalsBeyond(ncol, p, i, x1, vs, |vs|, k);
    }
  }

  /** For a 0/1 mask v (1 free, 0 constrained), the use setNullSpace is made
      for: stored values between free rows and columns are kept, those
      touching a constrained row or column off the diagonal become 0, and a
      stored constrained diagonal becomes 1. */
  lemma NullSpaceMask(nrow: nat, ncol: nat, p: seq<int>, i: seq<int>, x0: seq<real>, vs: seq<real>, c: int, k: int)
    requires WellFormed(nrow, ncol, p, i) && |x0| == |i| && nrow <= |vs| && ncol <= |vs|
    requires forall t :: 0 <= t < |vs| ==> vs[t] == 0.0 || vs[t] == 1.0
    requires 0 <= c < ncol && p[c] <= k < p[c + 1]
    ensures vs[i[k]] == 1.0 && vs[c] == 1.0 ==> NullSpaced(nrow, ncol, p, i, x0, vs)[k] == x0[k]
    ensures i[k] != c && (vs[i[k]] == 0.0 || vs[c] == 0.0) ==> NullSpaced(nrow, ncol, p, i, x0, vs)[k] == 0.0
    ensures i[k] == c && vs[c] == 0.0 ==> NullSpaced(nrow, ncol, p, i, x0, vs)[k] == 1.0
  {
    NullSpacedEntries(nrow, ncol, p, i, x0, vs);
    assert p[c + 1] <= p[ncol];
    assert 0 <= i[k] < nrow;
    MaskProduct(x0[k], vs[i[k]], vs[c]);
  }

  /** Scaling by the product of two mask entries keeps a value or zeroes
      it. */
  lemma MaskProduct(a: real, u: real, w: real)
    requires (u == 0.0 || u == 1.0) && (w == 0.0 || w == 1.0)
    ensures u == 1.0 && w == 1.0 ==> a * (u * w) == a
    ensures u == 0.0 || w == 0.0 ==> a * (u * w) == 0.0
  {
    if u == 0.0 || w == 0.0 {
      assert u * w == 0.0;
    } else {
      assert u * w == 1.0;
    }
  }

  /** The inner loop of the first pass over column j, with the running
      counter `idx`, which starts at and comes back as a column pointer. */
  method ScaleColumn(s: Compressed, v: array<real>, n: nat, j: int, idx: int) returns (next: int)
    requires s.Valid() && s.x != v && n <= v.Length && s.nrow <= n && s.ncol <= n
    requires 0 <= j < s.ncol && idx == s.p[j]
    modifies s.x
    ensures next == s.p[j + 1]
    ensures 0 <= s.p[j] <= s.p[j + 1] <= s.p[s.ncol] <= |s.i|
    ensures s.x[..] == ScaleSlots(old(s.x[..]), s.i, v[..n], j, s.p[j], s.p[j + 1])
  {
    var iFrom := s.p[j];
    var iTo := s.p[j + 1] - 1;
    assert 0 <= iFrom <= iTo + 1 <= s.p[s.ncol] <= s.x.Length;
    ghost var x0 := s.x[..];
    ghost var vs := v[..n];
    next := idx;
    var i := iFrom;
    while i <= iTo
      invariant iFrom <= i <= iTo + 1 && next == i
      invariant forall k :: iFrom <= k < iTo + 1 ==> 0 <= s.i[k] < |vs|
      invariant s.x[..] == ScaleSlots(x0, s.i, vs, j, iFrom, i)
    {
      var row := s.i[i];
      ScaleSlotsAt(x0, s.i, vs, j, iFrom, i, i);
      assert 0 <= row < s.nrow;
      ghost var prev := s.x[..];
      ghost var scaled := x0[i] * (vs[row] * vs[j]);
      assert prev[i] == x0[i] && v[row] == vs[row] && v[j] == vs[j];
      s.x[next] := s.x[next] * (v[row] * v[j]);
      assert s.x[i] == scaled;
      assert s.x[..] == prev[i := scaled];
      ScaleSlotsStep(x0, s.i, vs, j, iFrom, i, prev, scaled, s.x[..]);
      next := next + 1;
      i := i + 1;
    }
  }

  /** The first loop of setNullSpace (sparse_matrix.cpp:118-130). */
  method ScaleByOuter(s: Compressed, v: array<real>, n: nat)
    requires s.Valid() && s.x != v && n <= v.Length && s.nrow <= n && s.ncol <= n
    modifies s.x
    ensures s.x[..] == ScaledColumns(s.nrow, s.ncol, s.p, s.i, old(s.x[..]), v[..n], s.ncol)
  {
    ghost var x0 := s.x[..];
    var idx := 0;
    var j := 0;
    while j < s.ncol
      invariant 0 <= j <= s.ncol && idx == s.p[j]
      invariant s.x[..] == ScaledColumns(s.nrow, s.ncol, s.p, s.i, x0, v[..n], j)
    {
      idx := ScaleColumn(s, v, n, j, idx);
      j := j + 1;
    }
  }
}
