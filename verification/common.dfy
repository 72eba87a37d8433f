/** What every chapter of the hash-table engine shares: 64-bit hash codes, an
    optional value for the null/EMPTY markers, and the starting slot of a probe.
    The hash functions themselves (pyHash and friends) are not part of this model:
    every operation receives the hash function as a parameter. */
module HashCommon {

  /** 2^63 and 2^64. */
  const TWO_POW_63: int := 0x8000_0000_0000_0000
  const TWO_POW_64: int := 0x1_0000_0000_0000_0000

  /** A CPython 3.2 hash value: a signed 64-bit integer. */
  type HashCode = h: int | -0x8000_0000_0000_0000 <= h < 0x8000_0000_0000_0000

  datatype Option<T> = None | Some(value: T)

  /** The error the probing operations raise. */
  datatype Error = KeyError | UnknownProbingAlgorithm(name: string)

  datatype Result<T> = Success(value: T) | Failure(error: Error)

  /** The starting slot of every probe, `hash_code % len(slots)` with Python's
      modulo: for a positive size the result is the residue in [0, size) that
      differs from the hash code by a multiple of the size. */
  function ComputeIdx(hashCode: int, size: nat): (idx: nat)
    requires size > 0
    ensures idx < size
    ensures exists q :: hashCode == q * size + idx
  {
    var r := hashCode % size;
    assert hashCode == (hashCode / size) * size + r;
    r
  }
}
