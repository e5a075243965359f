/** The `cholmod_triplet` the assembly phase writes into: parallel row,
    column and value arrays of room nzmax, of which the first nnz slots are
    in use. Its allocation and reallocation belong to CHOLMOD; this class
    models the fields sparse_matrix.h reads and writes. */
module TripletStore {
  import opened SymmetricStorage

  class Triplet {
    const nrow: nat
    const ncol: nat
    const stype: Symmetry
    var i: array<int>
    var j: array<int>
    var x: array<real>
    var nnz: nat

    ghost predicate Valid()
      reads this
    {
      i.Length == j.Length == x.Length && nnz <= i.Length && i != j
    }

    /** nzmax: the room of the three arrays. */
    function Capacity(): nat
      reads this
    {
      i.Length
    }

    /** cholmod_allocate_triplet(nrow, ncol, nzmax, stype, ...): empty, with
        room for nzmax entries. */
    constructor (nrow: nat, ncol: nat, nzmax: nat, stype: Symmetry)
      ensures Valid() && fresh(i) && fresh(j) && fresh(x)
      ensures this.nrow == nrow && this.ncol == ncol && this.stype == stype
      ensures Capacity() == nzmax && nnz == 0
    {
      this.nrow, this.ncol, this.stype := nrow, ncol, stype;
      i := new int[nzmax];
      j := new int[nzmax];
      x := new real[nzmax];
      nnz := 0;
    }

    /** cholmod_reallocate_triplet(nznew, T, ...): fresh arrays of room
        nznew holding the entries in use. */
    method Reallocate(nznew: nat)
      requires Valid() && nnz <= nznew
      modifies this
      ensures Valid() && fresh(i) && fresh(j) && fresh(x)
      ensures Capacity() == nznew && nnz == old(nnz)
      ensures i[..nnz] == old(i[..nnz]) && j[..nnz] == old(j[..nnz]) && x[..nnz] == old(x[..nnz])
    {
      var ni := new int[nznew];
      var nj := new int[nznew];
      var nx := new real[nznew];
      forall k | 0 <= k < nnz {
        ni[k] := i[k];
      }
      forall k | 0 <= k < nnz {
        nj[k] := j[k];
      }
      forall k | 0 <= k < nnz {
        nx[k] := x[k];
      }
      i, j, x := ni, nj, nx;
    }
  }
}
