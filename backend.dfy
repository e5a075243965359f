/** The CHOLMOD context (`cholmod_common`, reached through
    ConfigSingleton::getCommonPtr()) as far as the buffers need it: the
    ledger of handles given back to `cholmod_free_*`. Allocation is `new`;
    what the library does inside its allocator is not part of this model. */
module Backend {

  class Common {
    /** Every handle freed so far, in order; a handle listed twice was freed
        twice. */
    var freed: seq<object>

    constructor ()
      ensures freed == []
    {
      freed := [];
    }

    /** cholmod_free_sparse / _triplet / _dense: a null handle is ignored,
        any other handle is recorded as freed. */
    method Free(h: object?)
      modifies this
      ensures freed == old(freed) + (if h == null then [] else [h])
    {
      if h != null {
        freed := freed + [h];
      }
    }
  }

  /** No handle occurs more than once in the ledger. */
  ghost predicate NoDoubleFree(freed: seq<object>) {
    forall k1, k2 :: 0 <= k1 < k2 < |freed| ==> freed[k1] != freed[k2]
  }
}
