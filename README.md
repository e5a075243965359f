# OOCholmod buffers in Dafny

A model of the hand-written part of OOCholmod, a C++ object layer over CHOLMOD, with proofs about that model. The model has two parts.

**The two-phase `SparseMatrix`.** While a matrix is being assembled, `A(row, column)` appends a zero-valued entry to a `cholmod_triplet`. The triplet is allocated on first use and grows when it is full. The caller writes the value through the reference it gets back. `build` converts the triplet to packed compressed-column form (`p`, `i`, `x`) and frees it. Unless the matrix is read-only, `build` also fills `lookupIndex`, a map from the packed key `(row << 32) + column` to the slot of that coordinate in `x`. After that, `A(row, column)` first swaps the coordinate into the stored symmetric half. It then hands out the slot of a stored coordinate, or a scratch zero for a coordinate that is not stored. `zero` and `setNullSpace` change values in place and keep the pattern. The move operations and the destructor manage the two CHOLMOD handles.

**The dense buffers.** `DenseVector`, `DenseMatrix` and the older `CholmodDenseVector` are fixed-size buffers of `size` values. Their operations work in place, element by element: `zero`, `fill`, `scale`, `divideBy`, `multiplyWith`, `copyTo`, `set`/`get`, `add` and `operator[]`. `dot` is specified as a sum. `DenseVector` and `DenseMatrix` are move-only: after a move the source holds a null handle and size 0, and their destructors free only a handle that is present. `CholmodDenseVector` has no move operations, and its destructor always hands its handle to `cholmod_free_dense`.

Layout:
- `lookup_key.dfy`: the packed key.
- `symmetric_storage.dfy`: the stored half and the swap.
- `compressed_column.dfy`: the packed `cholmod_sparse` and when it is well formed.
- `triplet_to_sparse.dfy`: a reference definition of the conversion that `build` delegates to CHOLMOD.
- `lookup_index.dfy`: the index and `getIndex`.
- `null_space.dfy`: the value transformation of `setNullSpace`.
- `triplet.dfy`: the triplet store.
- `backend.dfy`: the `cholmod_common` context, reduced to a ledger of freed handles.
- `matrix_phases.dfy`: the invariant of a matrix in each phase.
- `sparse_matrix.dfy`: the class itself.
- `elementwise.dfy`: the elementwise meaning of the dense operations.
- `dense_vector.dfy`, `dense_matrix.dfy`, `cholmod_dense_vector.dfy`: the three dense classes.
- `scenarios.dfy`: short life cycles whose whole outcome is proved.

How the model represents the source:
- CHOLMOD handles become Dafny objects. The `double` values become `real`.
- A `double&` handed out by `operator()` is the datatype `Ref`: a slot index together with the array it points into, or the scratch value. `Store` writes through it. `Store` accepts only a reference into the matrix's current arrays (`RefValid`), so a reference taken before the triplet grew, before `build` or before a move cannot be written through, as the source's `double&` would dangle there (`Scenarios.GrowthStalesReference`).
- Every `cholmod_free_*` appends the handle to `Common.freed`. So "no handle is freed twice" is `NoDoubleFree(freed)`.
- The DEBUG assertions of the source become preconditions, because the release build does not check them.

Where the header and the `.cpp` disagree, the model follows the `.cpp`:
- the constructor is `(nrow, ncol, maxSize)` with upper symmetric storage (`sparse_matrix.h:46` declares a different signature);
- `build` takes `readOnly` (`sparse_matrix.h:82` declares it without arguments);
- the vector class of `dense_vector.h` (declared as `CholmodDenseVector`) and the `DenseVector` of `dense_vector.cpp` are one class.

## Model

| member | source | states |
|---|---|---|
| LookupKey.KeyRoundTrip | src/sparse_matrix.h:120-123 | for row and column below 2^32, the key is below 2^64, and division and remainder by 2^32 recover the row and the column |
| LookupKey.KeyInjective | src/sparse_matrix.h:120-123 | two coordinates below 2^32 with equal keys are the same coordinate |
| SymmetricStorage.StoredHalfInHalf | src/sparse_matrix.h:132-136 | the remapped coordinate lies in the stored half and is the coordinate or its mirror image; a coordinate already in the stored half is not moved |
| SymmetricStorage.StoredHalfSymmetric | src/sparse_matrix.h:132-136 | for upper or lower storage, (r, c) and (c, r) remap to the same coordinate |
| CompressedColumn.ColumnOf | src/sparse_matrix.cpp:196-200 | a helper that unfolds `WellFormed` for one column: column j spans slots p[j] .. p[j+1]-1 within p[ncol] <= \|i\|, and holds no row twice |
| CompressedColumn.SortedDistinct | src/sparse_matrix.cpp:196 | a helper that unfolds `RowsSorted`: a column whose rows ascend strictly holds no row twice |
| CompressedColumn.FindRow | src/sparse_matrix.cpp:199-203 | the linear scan of a column returns -1 or a slot of the range that holds the row |
| CompressedColumn.FindRowMissing | src/sparse_matrix.cpp:199-203 | the scan returns -1 exactly when no slot of the range holds the row |
| CompressedColumn.FindRowUnique | src/sparse_matrix.cpp:199-203 | in a column with distinct rows, the scan for i[k] returns k |
| CompressedColumn.Slot | src/sparse_matrix.cpp:196-203 | the slot of (r, c) is -1 or a slot of column c that holds row r |
| CompressedColumn.Compressed.constructor | src/sparse_matrix.cpp:174 | a packed matrix with exactly the given shape, symmetry, pointers, rows and values, in a fresh value array |
| TripletToSparse.OccursIff | src/sparse_matrix.cpp:174 | a coordinate occurs among the first n triplet entries exactly when some entry k < n names it |
| TripletToSparse.SumAtAbsent | src/sparse_matrix.cpp:174 | a coordinate that no entry names sums to 0 |
| TripletToSparse.ColumnRowsSorted | src/sparse_matrix.cpp:174 | the rows the conversion lists for a column lie below nrow and ascend strictly |
| TripletToSparse.ColumnRowsMembers | src/sparse_matrix.cpp:174 | a row is listed for column c exactly when it is below nrow and some entry names (row, c) |
| TripletToSparse.CompressColumnsPointers | src/sparse_matrix.cpp:174 | the column pointers of the first n columns start at 0, never decrease and end at the number of stored slots |
| TripletToSparse.ColumnBounds | src/sparse_matrix.cpp:174 | column j takes exactly as many slots as the conversion lists rows for it, all within the stored slots |
| TripletToSparse.ColumnAt | src/sparse_matrix.cpp:174 | slot t of column j holds the t-th listed row of j and the sum of the values appended at that coordinate |
| TripletToSparse.CompressColumnsSorted | src/sparse_matrix.cpp:174 | before padding, rows are in range and ascend strictly within every column |
| TripletToSparse.CompressPadding | src/sparse_matrix.cpp:174 | the padded result has max(nnz, stored) slots and keeps the pointers and every stored slot |
| TripletToSparse.PaddedPattern | src/sparse_matrix.cpp:174 | extra slots past the last column keep a sorted pattern well formed and sorted |
| TripletToSparse.CompressWellFormed | src/sparse_matrix.cpp:174 | the conversion is a well-formed packed matrix (pointers nondecreasing from 0 to at most \|i\| = \|x\|, rows below nrow, distinct and ascending in each column) |
| TripletToSparse.EntryKept | src/sparse_matrix.cpp:174 | slots past the last column change no coordinate's slot or value |
| TripletToSparse.StoredAt | src/sparse_matrix.cpp:174 | a row held in a sorted column is found at its own slot and reads as the value there |
| TripletToSparse.AbsentAt | src/sparse_matrix.cpp:174 | a row a column does not hold has no slot and reads as 0 |
| TripletToSparse.ColumnsEntryStored | src/sparse_matrix.cpp:174 | a coordinate some entry names is stored in its column and holds the sum of its values |
| TripletToSparse.ColumnsEntryAbsent | src/sparse_matrix.cpp:174 | a coordinate no entry names is not stored and reads as 0 |
| TripletToSparse.CompressEntry | src/sparse_matrix.cpp:174 | after the conversion a coordinate of the matrix is stored exactly when an entry names it, and it reads as the sum of the values appended at it (duplicates add up) |
| TripletToSparse.CompressEntries | src/sparse_matrix.cpp:174 | every coordinate of the matrix reads as its summed value |
| LookupIndex.AddColumnQuery | src/sparse_matrix.cpp:201-205 | after the inner loop over a column's slots, a key is present exactly when it was before or is a row of that column, and a row's key maps to its own slot; other keys keep their slots |
| LookupIndex.IndexUpToQuery | src/sparse_matrix.cpp:198-206 | after the first j columns, the key of (r, c) is present exactly when c < j and (r, c) is stored, and it maps to that slot |
| LookupIndex.AddColumnSize | src/sparse_matrix.cpp:201-205 | a column with distinct rows adds one new key per slot |
| LookupIndex.IndexUpToSize | src/sparse_matrix.cpp:198-206 | the index over the first j columns has exactly p[j] entries |
| LookupIndex.IndexOfSize | src/sparse_matrix.cpp:195-206 | the built index has exactly p[ncol] entries |
| LookupIndex.IndexOfResolves | src/sparse_matrix.cpp:197-206 | every stored (i[k], j) maps to its own slot k: the running counter equals the slot |
| LookupIndex.GetIndex | src/sparse_matrix.h:129-142 | the answer is -1 or a slot held by the map; for a map of slots it is a slot exactly when the key of the coordinate, swapped into the stored half, is present |
| LookupIndex.GetIndexFindsSlot | src/sparse_matrix.h:129-142 | getIndex on the built index returns -1 exactly when the remapped coordinate is not stored, and its slot otherwise |
| LookupIndex.GetIndexSymmetric | src/sparse_matrix.h:132-136 | under symmetric storage, getIndex(r, c) == getIndex(c, r) |
| MatrixPhases.EntriesAllowedAppend | src/sparse_matrix.cpp:297-309 | appending an entry that passes the initAddValue checks keeps every entry within bounds and in the stored half |
| TripletStore.Triplet.constructor | src/sparse_matrix.h:147 | an empty triplet (nnz 0) with room nzmax and fresh row, column and value arrays |
| TripletStore.Triplet.Reallocate | src/sparse_matrix.h:151-152 | fresh arrays of the new room whose first nnz rows, columns and values are the old ones |
| Backend.Common.constructor | src/sparse_matrix.cpp:103-110 | a context that has freed nothing yet |
| Backend.Common.Free | src/sparse_matrix.cpp:103-110 | freeing appends a non-null handle to the ledger and ignores a null one |
| NullSpace.ScaleSlots | src/sparse_matrix.cpp:125-129 | the inner loop keeps the length of x |
| NullSpace.ScaleSlotsAt | src/sparse_matrix.cpp:125-129 | after the inner loop over column j, each slot k of the column is x[k] * (v[i[k]] * v[j]), and every other slot is unchanged |
| NullSpace.ScaledColumns | src/sparse_matrix.cpp:122-130 | the first loop keeps the length of x |
| NullSpace.ScaledColumnsAt | src/sparse_matrix.cpp:122-130 | after the first loop over columns below j, a slot of such a column is scaled by v[row] * v[column], and the slots of later columns are unchanged |
| NullSpace.ScaledColumnsBeyond | src/sparse_matrix.cpp:122-130 | the first loop leaves the slots past p[ncol] alone |
| NullSpace.MarkDiagonals | src/sparse_matrix.cpp:131-135 | the diagonal loop keeps the length of x |
| NullSpace.DiagonalSlotIs | src/sparse_matrix.cpp:131-135 | in a well-formed matrix, slot k of column c is the slot of (t, t) exactly when it holds row c and c == t |
| NullSpace.MarkDiagonalsAt | src/sparse_matrix.cpp:131-135 | after the diagonal loop over t' < t, a stored diagonal (c, c) with c < t and v[c] == 0 holds 1, and every other slot is unchanged |
| NullSpace.MarkDiagonalsBeyond | src/sparse_matrix.cpp:131-135 | the diagonal loop leaves the slots past p[ncol] alone |
| NullSpace.NullSpacedEntries | src/sparse_matrix.cpp:114-136 | setNullSpace, slot by slot: a stored value at (row, c) becomes x[k] * (v[row] * v[c]), except a stored diagonal with v[c] == 0, which becomes 1; slots past p[ncol] are unchanged |
| NullSpace.NullSpaceMask | src/sparse_matrix.cpp:114-136 | for a 0/1 mask v, a value between two free indices is kept, an off-diagonal value touching a constrained index becomes 0, and a constrained diagonal becomes 1 |
| NullSpace.ScaleColumn | src/sparse_matrix.cpp:123-129 | the inner loop runs the counter from p[j] to p[j+1] and leaves x as ScaleSlots describes |
| NullSpace.ScaleByOuter | src/sparse_matrix.cpp:120-130 | the first loop of setNullSpace leaves x as ScaledColumns over all columns describes |
| SparseMatrices.InitialCapacity | src/sparse_matrix.cpp:28-33 | the room is maxSize when it is nonzero; for 0 it is half of nrow*(ncol+1) computed in 32-bit unsigned arithmetic, so below 2^31, and exactly the floor of that half when the product does not wrap |
| SparseMatrices.DefaultCapacityIsUpperHalf | src/sparse_matrix.cpp:30 | for an n-by-n matrix whose product fits, the default room is the number of coordinates in the upper half |
| SparseMatrices.TriangularNumber | src/sparse_matrix.cpp:30 | twice the size of the upper half of an n-by-n matrix is n*(n+1) |
| SparseMatrices.GrownCapacity | src/sparse_matrix.h:45 | the grown room is the old room times 1.5, rounded up, and always larger than the old room (1 for an empty one) |
| SparseMatrices.ValidIndexLeavesCoordinate | src/sparse_matrix.cpp:275-287 | under assertValidIndex, the swap of getIndex never happens |
| SparseMatrices.AppendHasRoomWhenTracked | src/sparse_matrix.h:151-152 | when maxTripletElements equals the room, the growth test leaves room for every append |
| SparseMatrices.UnsetMaxTripletElementsOverflows | src/sparse_matrix.cpp:22-43 | with room 1 and one entry, an unset maxTripletElements other than 1 lets the second append write past the triplet |
| SparseMatrices.IndexColumns | src/sparse_matrix.cpp:195-206 | the nested loops of buildLookupIndexFromSparse produce exactly IndexOf, the index every lookup lemma is about |
| SparseMatrices.TripletToCompressed | src/sparse_matrix.cpp:174 | the conversion yields a fresh, well-formed matrix of the same shape whose rows ascend in each column, and every coordinate holds the sum of the values appended at it |
| SparseMatrices.SparseMatrix.constructor | src/sparse_matrix.cpp:22-43 | a valid matrix still assembling, with upper symmetric storage, an empty triplet of room InitialCapacity, views bound to that triplet and an empty index |
| SparseMatrices.SparseMatrix.IncreaseTripletCapacity | src/sparse_matrix.h:126 | the room grows to GrownCapacity and maxTripletElements follows it; every entry is kept |
| SparseMatrices.SparseMatrix.EnsureRoom | src/sparse_matrix.h:146-153 | on first use, a fresh triplet of room maxTripletElements; growth exactly when nnz has reached maxTripletElements; every entry is kept and there is room for one more |
| SparseMatrices.SparseMatrix.Append | src/sparse_matrix.h:155-160 | the rows, columns and values grow by exactly (row, column, 0), earlier entries are unchanged, and the reference points to the new slot |
| SparseMatrices.SparseMatrix.InitAddValue | src/sparse_matrix.h:144-161 | lazy allocation and growth, then one appended (row, column, 0) entry with a reference to it; the phase, the header and the index are unchanged |
| SparseMatrices.SparseMatrix.Build | src/sparse_matrix.cpp:169-189 | afterwards sparse is fresh and non-null; triplet, values, iRow and jColumn are null; the triplet is freed once; the index is complete unless readOnly; each coordinate holds the sum of the values appended at it |
| SparseMatrices.SparseMatrix.BuildLookupIndexFromSparse | src/sparse_matrix.cpp:191-207 | the index becomes IndexOf of the compressed pattern, whatever it held before, so rebuilding gives the same map |
| SparseMatrices.SparseMatrix.GetValue | src/sparse_matrix.h:178-190 | builds the index when it is empty, then returns 0 for a coordinate outside the pattern and the stored value of the remapped coordinate otherwise |
| SparseMatrices.SparseMatrix.GetValueRef | src/sparse_matrix.h:163-176 | builds the index when it is empty, then returns the scratch value, reset to 0, for an absent coordinate and the slot of the remapped coordinate otherwise |
| SparseMatrices.SparseMatrix.Call | src/sparse_matrix.h:105-112 | appends (row, column, 0) and returns its slot while assembling; once built, it leaves the values alone and returns the slot of the stored coordinate or the reset scratch value |
| SparseMatrices.SparseMatrix.Store | src/sparse_matrix.h:105-112 | a write through a returned reference, which must point into the matrix's current triplet or built values, changes exactly the slot it points to; a write to the scratch value changes no entry |
| SparseMatrices.SparseMatrix.SetBuiltValue | src/sparse_matrix.h:163-176 | on a built matrix, `A(row, column) = value` overwrites only the slot of the remapped coordinate, and nothing when the coordinate is not stored |
| SparseMatrices.SparseMatrix.SetValue | src/sparse_matrix.cpp:133 | appends (row, column, value) while assembling; once built, overwrites only the stored slot of the remapped coordinate |
| SparseMatrices.SparseMatrix.Zero | src/sparse_matrix.cpp:228-234 | all nzmax values become 0 and every coordinate reads as 0; the pattern and the index stay valid |
| SparseMatrices.SparseMatrix.SetNullDiagonal | src/sparse_matrix.cpp:131-135 | the diagonal loop leaves x as MarkDiagonals describes, over every index of v |
| SparseMatrices.SparseMatrix.SetNullSpace | src/sparse_matrix.cpp:114-136 | the values become NullSpaced of the old values and v (see NullSpacedEntries), and the pattern is kept |
| SparseMatrices.SparseMatrix.MoveAsWritten | src/sparse_matrix.cpp:54-69 | takes the handles, the header, the index and the row and column views but neither values nor maxTripletElements; the source's handles, views and index are cleared |
| SparseMatrices.SparseMatrix.Move | src/sparse_matrix.cpp:54-69 | the new matrix is the old source, entries and room included, and the source is left valid and empty |
| SparseMatrices.SparseMatrix.MoveAssignAsWritten | src/sparse_matrix.cpp:71-94 | self-assignment does nothing; otherwise it frees its own handles when present and copies the source's, so both matrices hold the same handles; only the source's index is cleared |
| SparseMatrices.SparseMatrix.ShareHandles | src/sparse_matrix.cpp:80-87 | the fields are copied from the source, which keeps its handles and loses only its index |
| SparseMatrices.SparseMatrix.MoveAssign | src/sparse_matrix.cpp:71-94 | self-assignment does nothing; otherwise it frees its own handles when present, takes over the source's whole state and leaves the source valid and empty |
| SparseMatrices.SparseMatrix.TakeOver | src/sparse_matrix.cpp:55-64 | this matrix becomes the source, and the source holds nothing any more |
| SparseMatrices.SparseMatrix.Adopt | src/sparse_matrix.cpp:55 | this matrix takes the source's fields, entries and footprint and is valid |
| SparseMatrices.SparseMatrix.Release | src/sparse_matrix.cpp:60-64 | the source drops its handles, views and index and is left a valid, empty matrix |
| SparseMatrices.SparseMatrix.Destroy | src/sparse_matrix.cpp:97-112 | frees the compressed matrix, then the triplet, each only when present, and nulls both |
| Elementwise.Filled | src/dense_vector.cpp:99-107 | n elements, every one equal to value |
| Elementwise.Product | src/dense_vector.cpp:139-149 | \|a\| elements, element k being a[k] * b[k] |
| Elementwise.Quotient | src/dense_vector.cpp:123-133 | \|a\| elements, each being the element of a divided by the matching nonzero element of b (r[k] * b[k] == a[k]) |
| Elementwise.Scaled | src/dense_vector.cpp:116-121 | every element multiplied by alpha |
| Elementwise.AddAt | src/dense_vector.h:48-53 | element index increased by value, every other element unchanged |
| Elementwise.Dot | src/dense_vector.cpp:88-93 | the sum of a[k] * b[k] over the first \|a\| elements; 0 when b is zero over those elements |
| Elementwise.DotIgnoresExcess | src/dense_vector.cpp:88-93 | only the first \|a\| elements of b take part in the dot product |
| Elementwise.DotSymmetric | src/dense_vector.cpp:88-93 | the dot product of two buffers of one size does not depend on their order |
| Elementwise.DotScaled | src/dense_vector.cpp:116-121 | scaling one side by alpha scales the dot product by alpha |
| Elementwise.DotAddAt | src/dense_vector.h:48-53 | add(index, value) changes the dot product with b by value * b[index] |
| Elementwise.DotFilledZero | src/dense_vector.cpp:80-86 | a zeroed buffer has dot product 0 with any buffer |
| Elementwise.ProductOfQuotient | src/dense_vector.h:35-40 | divideBy then multiplyWith by the same nonzero divisors gives the buffer back |
| Elementwise.QuotientOfProduct | src/dense_vector.h:35-40 | multiplyWith then divideBy by the same nonzero factors gives the buffer back |
| Elementwise.DotSelfNonnegative | src/dense_vector.cpp:88-93 | the dot product of a buffer with itself is never negative |
| DenseVectors.DenseVector.constructor | src/dense_vector.cpp:18-25 | a valid vector with a fresh buffer of size values |
| DenseVectors.DenseVector.FromHandle | src/dense_vector.cpp:27-33 | a valid vector that adopts the given buffer and size |
| DenseVectors.DenseVector.Move | src/dense_vector.cpp:35-46 | the new vector takes the buffer and the size; the source is left with a null buffer and size 0 |
| DenseVectors.DenseVector.MoveAssign | src/dense_vector.cpp:48-67 | self-assignment does nothing; otherwise it frees its own buffer when present, takes the source's buffer and size, and leaves the source null with size 0 |
| DenseVectors.DenseVector.Destroy | src/dense_vector.cpp:69-78 | frees the buffer only when present, and nulls it |
| DenseVectors.DenseVector.GetSize | src/dense_vector.h:28 | the vector's size: 0 without a handle, never more than the handle holds |
| DenseVectors.DenseVector.Dot | src/dense_vector.cpp:88-97 | the dot product of the vector's values with b's full values (b's excess takes no part); symmetric for equal sizes; not negative for a vector with itself |
| DenseVectors.DenseVector.Zero | src/dense_vector.cpp:80-86 | the size values become 0; the rest of the buffer is unchanged |
| DenseVectors.DenseVector.Fill | src/dense_vector.cpp:99-107 | the size values become value; the rest of the buffer is unchanged |
| DenseVectors.DenseVector.Scale | src/dense_vector.cpp:116-121 | the size values become Scaled by alpha; the rest of the buffer is unchanged |
| DenseVectors.DenseVector.DivideBy | src/dense_vector.cpp:123-133 | for b.size >= size, the values become Quotient by b's first size values; b's excess and b itself are unchanged |
| DenseVectors.DenseVector.MultiplyWith | src/dense_vector.cpp:139-149 | for b.size >= size, the values become Product with b; b is unchanged |
| DenseVectors.DenseVector.CopyTo | src/dense_vector.cpp:155-163 | dest's first size values become this vector's; dest beyond size and this vector are unchanged |
| DenseVectors.DenseVector.SetFloats | src/dense_vector.cpp:170-179 | element k becomes inData[k] for k < size; nothing else changes |
| DenseVectors.DenseVector.Set | src/dense_vector.cpp:181-187 | the first size values become the first size values of data |
| DenseVectors.DenseVector.Get | src/dense_vector.cpp:189-195 | the first size output elements become the vector's values; the rest of the output is untouched |
| DenseVectors.DenseVector.GetFloats | src/dense_vector.cpp:197-205 | exactly size output elements, one per buffer element; the rest of the output is untouched |
| DenseVectors.DenseVector.Add | src/dense_vector.h:48-53 | for index < size, element index grows by value and no other element changes |
| DenseVectors.DenseVector.At | src/dense_vector.h:55 | a read through the const operator[] gives element i of the vector's values |
| DenseVectors.DenseVector.SetAt | src/dense_vector.h:56 | a write through operator[] changes exactly element i |
| DenseMatrices.DenseMatrix.constructor | src/dense_matrix.cpp:18-25 | a valid matrix with a fresh buffer of size values |
| DenseMatrices.DenseMatrix.FromHandle | src/dense_matrix.cpp:27-33 | a valid matrix that adopts the given buffer and size |
| DenseMatrices.DenseMatrix.Move | src/dense_matrix.cpp:35-46 | the new matrix takes the buffer and the size; the source is left with a null buffer and size 0 |
| DenseMatrices.DenseMatrix.MoveAssign | src/dense_matrix.cpp:48-67 | self-assignment does nothing; otherwise it frees its own buffer when present, takes the source's, and leaves the source null with size 0 |
| DenseMatrices.DenseMatrix.Destroy | src/dense_matrix.cpp:69-78 | frees the buffer only when present, and nulls it |
| DenseMatrices.DenseMatrix.GetSize | src/dense_matrix.cpp:92 | the matrix's size, which dot passes to cblas_ddot: 0 without a handle, never more than the handle holds |
| DenseMatrices.DenseMatrix.Dot | src/dense_matrix.cpp:88-93 | the dot product of the matrix's values with b's full values (b's excess takes no part); symmetric for equal sizes; not negative for a matrix with itself |
| DenseMatrices.DenseMatrix.Zero | src/dense_matrix.cpp:80-86 | the size values become 0; the rest of the buffer is unchanged |
| DenseMatrices.DenseMatrix.Fill | src/dense_matrix.cpp:95-103 | the size values become value; the rest of the buffer is unchanged |
| DenseMatrices.DenseMatrix.Scale | src/dense_matrix.cpp:112-117 | the size values become Scaled by alpha |
| DenseMatrices.DenseMatrix.DivideBy | src/dense_matrix.cpp:119-129 | for b.size >= size, an elementwise Quotient over i < size only; b is unchanged |
| DenseMatrices.DenseMatrix.MultiplyWith | src/dense_matrix.cpp:131-141 | for b.size >= size, an elementwise Product over i < size; b is unchanged |
| DenseMatrices.DenseMatrix.CopyTo | src/dense_matrix.cpp:143-151 | exactly dest's first size values are overwritten, with this matrix's values |
| DenseMatrices.DenseMatrix.SetFloats | src/dense_matrix.cpp:158-167 | element k becomes inData[k] for k < size; nothing else changes |
| DenseMatrices.DenseMatrix.Set | src/dense_matrix.cpp:169-175 | the first size values become the first size values of data |
| DenseMatrices.DenseMatrix.Get | src/dense_matrix.cpp:177-183 | the first size output elements become the matrix's values |
| DenseMatrices.DenseMatrix.GetFloats | src/dense_matrix.cpp:185-193 | exactly size output elements, one per buffer element |
| LegacyDenseVector.CholmodDenseVector.constructor | src/CholmodDenseVector.cpp:12-16 | a valid vector with a fresh buffer of size values, tied to its context |
| LegacyDenseVector.CholmodDenseVector.FromHandle | src/CholmodDenseVector.cpp:18-21 | a valid vector that adopts the given buffer |
| LegacyDenseVector.CholmodDenseVector.Destroy | src/CholmodDenseVector.cpp:23-26 | hands the buffer to cholmod_free_dense (which ignores null) and nulls it |
| LegacyDenseVector.CholmodDenseVector.Zero | src/CholmodDenseVector.cpp:28-33 | all size values become 0 |
| LegacyDenseVector.CholmodDenseVector.SetFloats | src/CholmodDenseVector.cpp:35-43 | element k becomes inData[k] for every k < size, and nothing else changes |
| LegacyDenseVector.CholmodDenseVector.Set | src/CholmodDenseVector.cpp:45-50 | the first size values become the first size values of data |
| LegacyDenseVector.CholmodDenseVector.Get | src/CholmodDenseVector.cpp:52-57 | the first size output elements become the vector's values |
| LegacyDenseVector.CholmodDenseVector.GetFloats | src/CholmodDenseVector.cpp:59-64 | exactly size output elements, one per buffer element |
| Scenarios.MoveAssignAsWrittenFreesTwice | src/sparse_matrix.cpp:71-94 | move assignment as written followed by both destructors frees the source's triplet twice |
| Scenarios.MoveAssignAsWrittenFreesSparseTwice | src/sparse_matrix.cpp:71-94 | move assignment as written between two built matrices, followed by both destructors, frees the source's cholmod_sparse twice |
| Scenarios.MoveAssignFreesOnce | src/sparse_matrix.cpp:71-94 | the corrected move assignment followed by both destructors frees each handle once |
| Scenarios.MoveAsWrittenLosesValues | src/sparse_matrix.cpp:54-69 | after the move constructor as written, the new matrix holds the triplet but its values view does not point into it |
| Scenarios.MoveKeepsAssembling | src/sparse_matrix.cpp:54-69 | with the corrected move, an entry appended before the move and one after it are both in the triplet |
| Scenarios.GrowthOnSecondAppend | src/sparse_matrix.h:151-152 | with room 1, the second append finds the triplet full and grows it to room 2 |
| Scenarios.GrowthStalesReference | src/sparse_matrix.h:144-161 | after a growing append, the reference handed out by the previous append no longer points into the matrix's values |
| Scenarios.ZeroThenRefill | test/objects.h:66-71 | zero then `A(row, column) = value` on a built matrix: the coordinate reads back as value when it is stored, and as 0 otherwise |
| Scenarios.DenseVectorFreesOnce | src/dense_vector.cpp:48-78 | move assignment then both destructors frees each of the two buffers once |
| Scenarios.DenseMatrixFreesOnce | src/dense_matrix.cpp:35-78 | move construction then both destructors frees the one buffer once |
| Scenarios.LegacyFreesOnce | src/CholmodDenseVector.cpp:23-26 | two legacy vectors destroyed once each free two distinct handles |
| Scenarios.DenseVectorSetGet | src/dense_vector.cpp:181-195 | set(double*) then get(double*) returns the same size values |
| Scenarios.DenseMatrixSetGet | src/dense_matrix.cpp:169-183 | set(double*) then get(double*) returns the same size values |
| Scenarios.LegacySetGet | src/CholmodDenseVector.cpp:45-57 | set(double*) then get(double*) returns the same size values |

## Left out

- CHOLMOD itself is not part of this model. `cholmod_triplet_to_sparse` is replaced by a reference definition: columns in order, rows ascending, duplicates summed, room max(nnz, stored). The well-formedness that the index loop relies on is proved for that definition.
- The sparse matrix's `analyze`, `analyzePtr` and `factor`, and solving, are calls into CHOLMOD.
- `multiply` (`cholmod_sdmult`) and `operator+` (`cholmod_add`) on the sparse matrix are library calls. Also not modelled is the stale `lookupIndex` that `operator+` leaves behind.
- The constructor from a `cholmod_sparse*`: the handle comes from CHOLMOD, which is outside the model.
- `length`, which needs `cblas_dnrm2` and a square root.
- `print`: it is output.
- `ConfigSingleton`: the global CHOLMOD context is a parameter (`Common`) instead.
- The DEBUG `magicNumber` and `maxElements` bookkeeping. The checks of `assertValidInitAddValue` become the precondition `EntryAllowed` of an append, and the size checks that `divideBy`, `multiplyWith` and `copyTo` assert become preconditions. Lookups do not require `assertValidIndex`: without DEBUG the swap of `getIndex` does run, and the model keeps it (`ValidIndexLeavesCoordinate` shows that the check would rule the swap out).
- The `DenseMatrix` operators: `operator+` has no return statement, and the other operators are declared without bodies.
- `setSymmetry`, `getMatrixState`, `swap`, `transpose` and `operator==` of the sparse matrix are declared without bodies.
- The deleted copy constructors. A Dafny object is only ever passed by reference, so the model has no copy to forbid.
- The numbers are `real`, not IEEE `double`, and the `float` conversions of `set(float*)`/`get(float*)` are the identity.
- Allocation failure of CHOLMOD is not modelled; an allocation always succeeds.
- SparseMatrices.SparseMatrix.IncreaseTripletCapacity: its body is not defined anywhere in OOCholmod's sources. It is modelled as the documented growth by a factor of 1.5, rounded up, with the entries kept and the views rebound. `maxTripletElements` follows the new room.
- SparseMatrices.SparseMatrix.SetValue: `setValue`, called at `sparse_matrix.cpp:133`, is not defined anywhere in OOCholmod's sources. It is modelled as `A(row, column) = value`.
- SparseMatrices.SparseMatrix.GetValueRef: the static scratch value of `getValue` is a field per matrix, not one value shared by every matrix.
- DenseVectors.DenseVector.DivideBy and DenseMatrices.DenseMatrix.DivideBy require nonzero divisors. Division by zero gives IEEE infinities or NaN, which `real` has no counterpart for.
- LookupKey.Key assumes a 64-bit `long`, as on LP64 platforms, so the shift is by 32. Where `long` has 32 bits the shift is by 16, and keys of distinct coordinates can collide; that platform is not modelled.
- SparseMatrices.InitialCapacity takes `maxSize` as a `nat`. The source's `int maxSize` can be negative, and CHOLMOD would then receive a huge `size_t` room; that case is not modelled.
- SparseMatrices.SparseMatrix.constructor takes `maxSize` as a `nat`, for the reason given for `InitialCapacity`.
- SparseMatrices.SparseMatrix.EnsureRoom requires `maxTripletElements > 0` when there is no triplet. The source makes no such demand (sparse_matrix.h:146-150). It allocates a triplet of room `maxTripletElements` and writes its slot 0. With room 0, whether that slot exists depends on how CHOLMOD rounds the allocation, which is outside the model. Only a moved-from matrix reaches this branch.
- SparseMatrices.SparseMatrix.InitAddValue has the same extra precondition as `EnsureRoom`, for the same reason.
- SparseMatrices.SparseMatrix.Call has the same extra precondition on an assembling matrix, for the same reason.
- SparseMatrices.SparseMatrix.SetValue has the same extra precondition on an assembling matrix, for the same reason.
- Buffer sizes are unbounded `nat`s. In the source, `getSize()` returns the `unsigned int size` as a signed `int` (dense_vector.h:28). So a size of 2^31 or more reads as negative there, and the model does not capture that: it acts on all `size` elements. Each member affected has a line below.
- DenseVectors.DenseVector.Scale: for a size of 2^31 or more, `cblas_dscal` receives a negative count (dense_vector.cpp:120); not modelled.
- DenseVectors.DenseVector.DivideBy: for a size of 2^31 or more, its loop runs no iterations (dense_vector.cpp:130); not modelled.
- DenseVectors.DenseVector.MultiplyWith: for a size of 2^31 or more, its loop runs no iterations (dense_vector.cpp:146); not modelled.
- DenseVectors.DenseVector.CopyTo: for a size of 2^31 or more, `memcpy` receives a wrapped byte count (dense_vector.cpp:162); not modelled.
- DenseVectors.DenseVector.Dot: for a size of 2^31 or more, `cblas_ddot` receives a negative count (dense_vector.cpp:92); not modelled.
- DenseMatrices.DenseMatrix.Scale: for a size of 2^31 or more, `cblas_dscal` receives a negative count (dense_matrix.cpp:116); not modelled.
- DenseMatrices.DenseMatrix.DivideBy: for a size of 2^31 or more, its loop runs no iterations (dense_matrix.cpp:126); not modelled.
- DenseMatrices.DenseMatrix.MultiplyWith: for a size of 2^31 or more, its loop runs no iterations (dense_matrix.cpp:138); not modelled.
- DenseMatrices.DenseMatrix.CopyTo: for a size of 2^31 or more, `memcpy` receives a wrapped byte count (dense_matrix.cpp:150); not modelled.
- DenseMatrices.DenseMatrix.Dot: for a size of 2^31 or more, `cblas_ddot` receives a negative count (dense_matrix.cpp:92); not modelled.
- SparseMatrices.SparseMatrix.SetNullDiagonal: for a size of 2^31 or more, the diagonal loop runs no iterations (sparse_matrix.cpp:131), while the model visits every index of v below 2^32; not modelled.
- SparseMatrices.SparseMatrix.SetNullSpace: for a size of 2^31 or more, its diagonal loop runs no iterations (sparse_matrix.cpp:131); not modelled.
- LegacyDenseVector.CholmodDenseVector.constructor takes `size` as a `nat`. The source's `int size` (CholmodDenseVector.cpp:12) can be negative; that case is not modelled. Sizes of 2^31 and more are not modelled either.
- DenseVectors.DenseVector.Dot requires `b.size >= size`. The source checks no size in `dot` (dense_vector.cpp:88-93), not even under DEBUG. The requirement excludes a read past the end of b's buffer.
- DenseMatrices.DenseMatrix.Dot requires `b.size >= size`. The source checks no size in `dot` (dense_matrix.cpp:88-93). The requirement excludes a read past the end of b's buffer.
- SparseMatrices.SparseMatrix.SetNullSpace requires `nrow <= v.size` and `ncol <= v.size`. The source checks neither and reads `v[row]` and `v[j]` through the unchecked `operator[]` (sparse_matrix.cpp:114-136, dense_vector.h:55). The requirement excludes a read past the end of v's buffer.
- DenseVectors.DenseVector.Dot and DenseMatrices.DenseMatrix.Dot are specified as an exact, left-to-right sum, not with BLAS rounding.

## Findings

| source | as written | input that shows it | evidently intended | confidence | as-written member | corrected member |
|---|---|---|---|---|---|---|
| src/sparse_matrix.cpp:71-94 | move assignment copies the source's `sparse` and `triplet` but never nulls them in the source | two matrices `a`, `b`; `a = std::move(b)`; then both destructors: `b`'s handle is freed twice. For assembling matrices that is the triplet. For built matrices, as in `D = (A+B) + B` at test/objects.h:106, it is the cholmod_sparse | null the source's handles and views, as the move constructor does | not executed; high | SparseMatrices.SparseMatrix.MoveAssignAsWritten, Scenarios.MoveAssignAsWrittenFreesTwice, Scenarios.MoveAssignAsWrittenFreesSparseTwice | SparseMatrices.SparseMatrix.MoveAssign, Scenarios.MoveAssignFreesOnce |
| src/sparse_matrix.cpp:22-43 | the constructor allocates `elements` slots but never assigns `maxTripletElements`, which the growth test at sparse_matrix.h:151 compares `nnz` against | `SparseMatrix(1, 1, 1)`, two appends while `maxTripletElements` holds anything but 0 or 1: the second append writes past the triplet (with 0, the first append already grows the triplet) | set `maxTripletElements = elements` | not executed; high | SparseMatrices.UnsetMaxTripletElementsOverflows | SparseMatrices.SparseMatrix.constructor, SparseMatrices.AppendHasRoomWhenTracked, Scenarios.GrowthOnSecondAppend |
| src/sparse_matrix.cpp:54-69 | the move constructor takes `triplet`, `iRow` and `jColumn` but neither `values` nor `maxTripletElements` | move an assembling matrix, then append: the new matrix writes its value through an unset `values` pointer | take over `values` and `maxTripletElements` too | not executed; high | SparseMatrices.SparseMatrix.MoveAsWritten, Scenarios.MoveAsWrittenLosesValues | SparseMatrices.SparseMatrix.Move, Scenarios.MoveKeepsAssembling |
