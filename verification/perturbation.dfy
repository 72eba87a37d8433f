/** The index-stepping primitives of CPython 3.2's open addressing, as the
    real dict of chapter 4 uses them: the unsigned perturb taken from the hash
    code, the step `idx = (5 * idx + 1 + perturb) % size`, and the shift
    `perturb >>= 5`.  `Walk` follows the order of the stepping mixin: the next
    index is computed from the old perturb, and only then is perturb shifted. */
module Perturbation {
  import opened HashCommon
  import opened FullPeriod

  /** `perturb >>= PERTURB_SHIFT` divides by 2^PERTURB_SHIFT. */
  const PERTURB_SHIFT: nat := 5

  /** `signed_to_unsigned`: the residue of the hash code modulo 2^64. */
  function SignedToUnsigned(hashCode: HashCode): (u: nat)
    ensures u < TWO_POW_64
    ensures u == hashCode % TWO_POW_64
  {
    if hashCode < 0 then
      ModUnique(hashCode, TWO_POW_64, -1, hashCode + TWO_POW_64);
      hashCode + TWO_POW_64
    else
      ModUnique(hashCode, TWO_POW_64, 0, hashCode);
      hashCode
  }

  /** A non-negative hash code is its own perturb; a negative one is shifted
      up by 2^64. */
  lemma SignedToUnsignedCases(hashCode: HashCode)
    ensures hashCode >= 0 ==> SignedToUnsigned(hashCode) == hashCode
    ensures hashCode < 0 ==> SignedToUnsigned(hashCode) == hashCode + TWO_POW_64
  {
    if hashCode < 0 {
      ModUnique(hashCode, TWO_POW_64, -1, hashCode + TWO_POW_64);
    } else {
      ModUnique(hashCode, TWO_POW_64, 0, hashCode);
    }
  }

  /** `computePerturb`: the initial perturb of a probe. */
  function ComputePerturb(hashCode: HashCode): (perturb: nat)
    ensures perturb < TWO_POW_64 && perturb % TWO_POW_64 == hashCode % TWO_POW_64
  {
    var u := SignedToUnsigned(hashCode);
    ModUnique(u, TWO_POW_64, 0, u);
    u
  }

  /** `nextIdx`: the next slot of the probe. */
  function NextIdx(idx: nat, perturb: nat, size: nat): (r: nat)
    requires size > 0
    ensures r < size
    ensures exists q :: 5 * idx + 1 + perturb == q * size + r
  {
    var r := (5 * idx + 1 + perturb) % size;
    assert 5 * idx + 1 + perturb == ((5 * idx + 1 + perturb) / size) * size + r;
    r
  }

  /** `perturbShift`: floor division by 2^PERTURB_SHIFT = 32. */
  function PerturbShift(perturb: nat): (r: nat)
    ensures r * 32 <= perturb < r * 32 + 32
    ensures perturb > 0 ==> r < perturb
  {
    perturb / 32
  }

  /** The number of shifts after which perturb is zero. */
  function ShiftsToZero(perturb: nat): nat
    decreases perturb
  {
    if perturb == 0 then 0 else 1 + ShiftsToZero(PerturbShift(perturb))
  }

  /** Perturb after `t` shifts. */
  function Shifted(perturb: nat, t: nat): nat
    decreases t
  {
    if t == 0 then perturb else Shifted(PerturbShift(perturb), t - 1)
  }

  function Pow32(k: nat): (r: nat)
    ensures r >= 1
  {
    if k == 0 then 1 else 32 * Pow32(k - 1)
  }

  lemma {:induction false} ShiftsBelow(perturb: nat, k: nat)
    requires perturb < Pow32(k)
    ensures ShiftsToZero(perturb) <= k
  {
    if perturb > 0 {
      ShiftsBelow(PerturbShift(perturb), k - 1);
    }
  }

  /** ShiftsToZero counts the shifts that bring perturb to zero, and zero stays zero. */
  lemma {:induction false} ShiftedToZero(perturb: nat, t: nat)
    requires t >= ShiftsToZero(perturb)
    ensures Shifted(perturb, t) == 0
    decreases t
  {
    if t > 0 {
      ShiftedToZero(PerturbShift(perturb), t - 1);
    }
  }

  /** Every perturb computed from a 64-bit hash code reaches zero within 13 shifts. */
  lemma PerturbReachesZero(hashCode: HashCode)
    ensures ShiftsToZero(ComputePerturb(hashCode)) <= 13
    ensures Shifted(ComputePerturb(hashCode), 13) == 0
  {
    assert Pow32(13) == 0x2_0000_0000_0000_0000;
    ShiftsBelow(ComputePerturb(hashCode), 13);
    ShiftedToZero(ComputePerturb(hashCode), 13);
  }

  /** The slot probed after `t` steps from slot `idx` with initial perturb `perturb`. */
  function Walk(idx: nat, perturb: nat, size: nat, t: nat): (r: nat)
    requires size > 0
    ensures (t > 0 || idx < size) ==> r < size
    decreases t
  {
    if t == 0 then idx else Walk(NextIdx(idx, perturb, size), PerturbShift(perturb), size, t - 1)
  }

  /** One more step appends one `nextIdx` (with the perturb reached so far) to a walk. */
  lemma {:induction false} WalkStep(idx: nat, perturb: nat, size: nat, t: nat)
    requires size > 0
    ensures Walk(idx, perturb, size, t + 1) == NextIdx(Walk(idx, perturb, size, t), Shifted(perturb, t), size)
    ensures Shifted(perturb, t + 1) == PerturbShift(Shifted(perturb, t))
    decreases t
  {
    if t > 0 {
      WalkStep(NextIdx(idx, perturb, size), PerturbShift(perturb), size, t - 1);
    }
  }

  /** Without perturb the walk is the recurrence `x -> (5 * x + 1) % size`. */
  lemma {:induction false} WalkWithoutPerturb(idx: nat, size: nat, t: nat)
    requires size > 0 && idx < size
    ensures Walk(idx, 0, size, t) == Iterate(idx, size, t)
    decreases t
  {
    if t > 0 {
      WalkWithoutPerturb(NextIdx(idx, 0, size), size, t - 1);
      IterateAdd(idx, size, 1, t - 1);
    }
  }

  /** The number of steps within which a probe meets every slot. */
  function ProbeBound(perturb: nat, size: nat): nat {
    ShiftsToZero(perturb) + size
  }

  /** On a power-of-two table the probe meets every slot within
      `ProbeBound(perturb, size)` steps: perturb dies out, after which the
      recurrence `5 * x + 1` has full period. */
  lemma {:induction false} ProbeReaches(idx: nat, perturb: nat, size: nat, e: nat) returns (t: nat)
    requires IsPowerOfTwo(size) && idx < size && e < size
    ensures t < ProbeBound(perturb, size) && Walk(idx, perturb, size, t) == e
    decreases perturb
  {
    if perturb == 0 {
      t := FullPeriodWitness(idx, size, e);
      WalkWithoutPerturb(idx, size, t);
    } else {
      var t' := ProbeReaches(NextIdx(idx, perturb, size), PerturbShift(perturb), size, e);
      t := t' + 1;
    }
  }
}
