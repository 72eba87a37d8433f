/** The real dict of chapter 4 as an object: `Dict32` holds `slots`, `used`
    and `fill` and changes them in place, following the `DICT32_SETITEM`,
    `DICT32_RESIZE_CODE`, `DICT32_LOOKDICT`, `DICT32_GETITEM` and
    `DICT32_DELITEM` listings.  Every method is proved equal to the function
    of the same name in `Dict32Spec`, whose lemmas state what it promises. */
module RealPythonDict {
  import opened HashCommon
  import opened FullPeriod
  import opened Perturbation
  import opened Dict32Spec

  /** The `idx` and `perturb` fields that the `chapter4Extend` mixin adds to
      an operation in progress. */
  class Prober {
    var idx: nat
    var perturb: nat

    constructor ()
      ensures idx == 0 && perturb == 0
    {
      idx := 0;
      perturb := 0;
    }

    /** `computeIdxAndSave`: the starting slot and the initial perturb. */
    method ComputeIdxAndSave(hashCode: HashCode, len: nat)
      requires len > 0
      modifies this
      ensures idx == ProbeAt(hashCode, len, 0) && perturb == Shifted(ComputePerturb(hashCode), 0)
    {
      idx := ComputeIdx(hashCode, len);
      perturb := ComputePerturb(hashCode);
    }

    /** `nextIdxAndSave`: the next slot is computed from the old perturb, and
        only then is perturb shifted; the probe advances by one step. */
    method NextIdxAndSave(ghost hashCode: HashCode, size: nat, ghost t: nat)
      requires size > 0
      requires idx == ProbeAt(hashCode, size, t) && perturb == Shifted(ComputePerturb(hashCode), t)
      modifies this
      ensures idx == ProbeAt(hashCode, size, t + 1) && perturb == Shifted(ComputePerturb(hashCode), t + 1)
    {
      ProbeStep(hashCode, size, t);
      idx := NextIdx(idx, perturb, size);
      perturb := PerturbShift(perturb);
    }
  }

  /** The key/value pairs of `pairs`, a later pair overriding an earlier one. */
  ghost function PairsMap<K, V>(pairs: seq<(K, V)>): map<K, V> {
    if pairs == [] then map[]
    else PairsMap(pairs[..|pairs| - 1])[pairs[|pairs| - 1].0 := pairs[|pairs| - 1].1]
  }

  lemma PairsMapSnoc<K, V>(pairs: seq<(K, V)>, k: nat)
    requires k < |pairs|
    ensures PairsMap(pairs[..k + 1]) == PairsMap(pairs[..k])[pairs[k].0 := pairs[k].1]
  {
    assert pairs[..k + 1][..k] == pairs[..k];
  }

  class Dict32<K(==), V> {
    var slots: seq<Slot<K, V>>
    var used: int
    var fill: int
    /** `hash` (pyHash) and `find_optimal_size` are not part of this model:
        the dict is given both. */
    const hash: K -> HashCode
    const findOptimalSize: nat -> nat

    function State(): Dict<K, V>
      reads this
    {
      Dict(slots, used, fill)
    }

    ghost predicate Valid()
      reads this
    {
      Dict32Spec.Valid(hash, State()) && SizePolicy(findOptimalSize)
    }

    /** `Dict32.__init__`: an empty table of `initialSize` slots, into which
        every pair is set in order. */
    constructor (hash: K -> HashCode, findOptimalSize: nat -> nat, initialSize: nat, pairs: seq<(K, V)>)
      requires IsPowerOfTwo(initialSize) && SizePolicy(findOptimalSize)
      ensures Valid() && this.hash == hash && this.findOptimalSize == findOptimalSize
      ensures Contents(slots) == PairsMap(pairs)
    {
      this.hash := hash;
      this.findOptimalSize := findOptimalSize;
      slots := EmptySlots(initialSize);
      used := 0;
      fill := 0;
      new;
      EmptyDictValid<K, V>(hash, initialSize);
      for k := 0 to |pairs|
        invariant Valid() && this.hash == hash && this.findOptimalSize == findOptimalSize
        invariant Contents(slots) == PairsMap(pairs[..k])
      {
        SetItem(pairs[k].0, pairs[k].1);
        PairsMapSnoc(pairs, k);
      }
      assert pairs[..|pairs|] == pairs;
    }

    /** `lookdict`. */
    method Lookdict(key: K) returns (r: Result<nat>)
      requires Valid()
      ensures r == Dict32Spec.Lookdict(hash, slots, key)
    {
      var h := hash(key);
      var n := |slots|;
      CountersOrdered(hash, State());
      StopStepFound(slots, h, key);
      StopStepIsFirst(slots, h, key, 0);
      ghost var stop := StopStep(slots, h, key, 0);
      var p := new Prober();
      p.ComputeIdxAndSave(h, n);
      ghost var d := 0;
      while !slots[p.idx].EmptySlot?
        modifies p
        invariant d <= stop && p.idx == ProbeAt(h, n, d) && p.perturb == Shifted(ComputePerturb(h), d)
        decreases stop - d
      {
        if Matches(slots[p.idx], h, key) {
          return Success(p.idx);
        }
        p.NextIdxAndSave(h, n, d);
        d := d + 1;
      }
      return Failure(KeyError);
    }

    /** `__getitem__`. */
    method GetItem(key: K) returns (r: Result<V>)
      requires Valid()
      ensures r == Dict32Spec.GetItem(hash, State(), key)
    {
      var found := Lookdict(key);
      match found
      case Success(idx) =>
        return Success(slots[idx].value);
      case Failure(e) =>
        return Failure(e);
    }

    /** `__delitem__`; `isException` reports the KeyError. */
    method DelItem(key: K) returns (isException: bool)
      requires Valid()
      modifies this
      ensures Valid()
      ensures isException <==> Dict32Spec.DelItem(hash, old(State()), key).Failure?
      ensures isException ==> State() == old(State())
      ensures !isException ==> State() == Dict32Spec.DelItem(hash, old(State()), key).value
    {
      DelItemCorrect(hash, State(), key);
      var found := Lookdict(key);
      match found
      case Failure(_) =>
        return true;
      case Success(idx) =>
        used := used - 1;
        slots := slots[idx := DummySlot(slots[idx].hashCode)];
        return false;
    }

    /** `__setitem__`. */
    method SetItem(key: K, value: V)
      requires Valid()
      modifies this
      ensures Valid()
      ensures State() == Dict32Spec.SetItem(hash, findOptimalSize, old(State()), key, value)
      ensures Contents(slots) == old(Contents(slots))[key := value]
      ensures fill * 3 < |slots| * 2
    {
      var h := hash(key);
      var target := FindTarget(key);
      if slots[target].EmptySlot? {
        used := used + 1;
        fill := fill + 1;
      } else if slots[target].DummySlot? {
        used := used + 1;
      }
      slots := slots[target := LiveSlot(h, key, value)];
      assert State() == Written(hash, old(State()), key, value);
      WrittenCorrect(hash, old(State()), key, value);
      SetItemCorrect(hash, findOptimalSize, old(State()), key, value);
      if fill * 3 >= |slots| * 2 {
        Resize();
      }
    }

    /** The probe loop of `__setitem__`: remember the first DUMMY slot, stop
        at the slot holding the key or at an EMPTY slot. */
    method FindTarget(key: K) returns (target: nat)
      requires Valid()
      ensures target == SetTarget(slots, hash(key), key)
    {
      var h := hash(key);
      var n := |slots|;
      CountersOrdered(hash, State());
      StopStepFound(slots, h, key);
      StopStepIsFirst(slots, h, key, 0);
      ghost var stop := StopStep(slots, h, key, 0);
      var p := new Prober();
      p.ComputeIdxAndSave(h, n);
      var targetIdx: Option<nat> := None;
      ghost var d := 0;
      while !slots[p.idx].EmptySlot?
        modifies p
        invariant d <= stop && p.idx == ProbeAt(h, n, d) && p.perturb == Shifted(ComputePerturb(h), d)
        invariant targetIdx.Some? <==> FirstDummyBelow(slots, h, d).Some?
        invariant targetIdx.Some? ==> targetIdx.value == ProbeAt(h, n, FirstDummyBelow(slots, h, d).value)
        decreases stop - d
      {
        if Matches(slots[p.idx], h, key) {
          targetIdx := Some(p.idx);
          break;
        }
        if targetIdx.None? && slots[p.idx].DummySlot? {
          targetIdx := Some(p.idx);
        }
        p.NextIdxAndSave(h, n, d);
        d := d + 1;
      }
      if targetIdx.None? {
        targetIdx := Some(p.idx);
      }
      target := targetIdx.value;
    }

    /** `resize`. */
    method Resize()
      requires HashesMatch(hash, slots) && DistinctKeys(slots) && used == CountLive(slots)
      requires SizePolicy(findOptimalSize)
      modifies this
      ensures State() == Dict32Spec.Resize(old(State()), findOptimalSize(old(used)))
    {
      var oldSlots := slots;
      var newSize := findOptimalSize(used);
      slots := EmptySlots(newSize);
      fill := used;
      for j := 0 to |oldSlots|
        invariant slots == ReinsertBelow(oldSlots, newSize, j)
        invariant used == old(used) && fill == used
      {
        var slot := oldSlots[j];
        ReinsertNext(hash, oldSlots, newSize, j);
        if slot.LiveSlot? {
          var idx := FreeSlot(slot.hashCode);
          slots := slots[idx := LiveSlot(slot.hashCode, slot.key, slot.value)];
        }
      }
    }

    /** The probe of `resize`'s loop: from the slot the hash code selects to
        the first EMPTY slot, without comparing keys. */
    method FreeSlot(h: HashCode) returns (idx: nat)
      requires IsPowerOfTwo(|slots|) && HasEmpty(slots)
      ensures idx == ProbeAt(h, |slots|, FreeStep(slots, h, 0))
    {
      var n := |slots|;
      FreeStepFound(slots, h);
      FreeStepIsFirst(slots, h, 0);
      ghost var free := FreeStep(slots, h, 0);
      var p := new Prober();
      p.ComputeIdxAndSave(h, n);
      ghost var d := 0;
      while !slots[p.idx].EmptySlot?
        modifies p
        invariant d <= free && p.idx == ProbeAt(h, n, d) && p.perturb == Shifted(ComputePerturb(h), d)
        decreases free - d
      {
        p.NextIdxAndSave(h, n, d);
        d := d + 1;
      }
      idx := p.idx;
    }
  }
}
