/** The packed 64-bit key under which the lookup index stores a coordinate.
    The source shifts the row by half the bits of a `long` (32 on an LP64
    platform) and adds the column; both are `unsigned int`, so on the stored
    `unsigned long` key this is exactly row * 2^32 + column. */
module LookupKey {

  /** 2^(sizeof(long) * 8 / 2) on an LP64 platform. */
  const Base: int := 0x1_0000_0000

  /** The values an `unsigned int` can hold. */
  predicate IsUInt32(v: int) {
    0 <= v < Base
  }

  /** key(row, column) = (row << 32) + column. */
  function Key(row: int, column: int): int {
    row * Base + column
  }

  /** The row half of a key (the inverse of the shift). */
  function KeyRow(key: int): int {
    key / Base
  }

  /** The column half of a key. */
  function KeyColumn(key: int): int {
    key % Base
  }

  /** Both halves of a key are recovered by division and remainder, and the
      key fits the 64 bits of an `unsigned long`. */
  lemma KeyRoundTrip(row: int, column: int)
    requires IsUInt32(row) && IsUInt32(column)
    ensures 0 <= Key(row, column) < Base * Base
    ensures KeyRow(Key(row, column)) == row
    ensures KeyColumn(Key(row, column)) == column
  {
    var k := Key(row, column);
    assert k == row * Base + column;
    assert 0 <= k;
    assert k < Base * Base by {
      assert row * Base <= (Base - 1) * Base;
    }
    var q, m := k / Base, k % Base;
    assert k == q * Base + m && 0 <= m < Base;
    assert (q - row) * Base == column - m;
  }

  /** Distinct coordinates get distinct keys, so the map never conflates two
      positions of the matrix. */
  lemma KeyInjective(r1: int, c1: int, r2: int, c2: int)
    requires IsUInt32(r1) && IsUInt32(c1) && IsUInt32(r2) && IsUInt32(c2)
    requires Key(r1, c1) == Key(r2, c2)
    ensures r1 == r2 && c1 == c2
  {
    KeyRoundTrip(r1, c1);
    KeyRoundTrip(r2, c2);
  }
}
