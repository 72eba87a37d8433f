/** The real dict of chapter 4 (the `Dict32` listings), as functions on
    values.  A slot is EMPTY, DUMMY (a deleted entry, which keeps its hash
    code) or live; `used` counts the live slots and `fill` the slots that are
    not EMPTY.  Every probe follows CPython 3.2's perturbation recurrence, so
    on a power-of-two table it meets every slot (`ProbeCovers`): the loops of
    the listings terminate as soon as one slot is EMPTY. */
module Dict32Spec {
  import opened HashCommon
  import opened FullPeriod
  import opened Perturbation

  /** `Slot()`, a slot whose key is DUMMY, or `Slot(hash_code, key, value)`. */
  datatype Slot<K, V> = EmptySlot | DummySlot(hashCode: HashCode) | LiveSlot(hashCode: HashCode, key: K, value: V)

  /** `self.slots`, `self.used` and `self.fill`. */
  datatype Dict<K, V> = Dict(slots: seq<Slot<K, V>>, used: int, fill: int)

  // ------------------------------------------------------------ the probe

  /** The slot a probe for hash code `h` visits after `t` steps in a table of `n` slots. */
  function ProbeAt(h: HashCode, n: nat, t: nat): (i: nat)
    requires n > 0
    ensures i < n
  {
    Walk(ComputeIdx(h, n), ComputePerturb(h), n, t)
  }

  /** The number of steps within which that probe meets every slot. */
  function Bound(h: HashCode, n: nat): nat {
    ProbeBound(ComputePerturb(h), n)
  }

  /** One more step of the probe is one `nextIdx` with the perturb shifted so far. */
  lemma ProbeStep(h: HashCode, n: nat, t: nat)
    requires n > 0
    ensures ProbeAt(h, n, t + 1) == NextIdx(ProbeAt(h, n, t), Shifted(ComputePerturb(h), t), n)
    ensures Shifted(ComputePerturb(h), t + 1) == PerturbShift(Shifted(ComputePerturb(h), t))
  {
    WalkStep(ComputeIdx(h, n), ComputePerturb(h), n, t);
  }

  /** On a power-of-two table the probe meets slot `e` within `Bound` steps. */
  lemma ProbeCovers(h: HashCode, n: nat, e: nat) returns (t: nat)
    requires IsPowerOfTwo(n) && e < n
    ensures t < Bound(h, n) && ProbeAt(h, n, t) == e
  {
    t := ProbeReaches(ComputeIdx(h, n), ComputePerturb(h), n, e);
  }

  /** The slot holds `key` under hash code `h`: the test
      `slots[idx].hash_code == hash_code and slots[idx].key == key`. */
  predicate Matches<K(==), V>(slot: Slot<K, V>, h: HashCode, key: K) {
    slot.LiveSlot? && slot.hashCode == h && slot.key == key
  }

  /** The probe loops of `lookdict` and `__setitem__` stop here. */
  predicate IsStop<K(==), V>(slot: Slot<K, V>, h: HashCode, key: K) {
    slot.EmptySlot? || Matches(slot, h, key)
  }

  /** The first step, from step `d` on, at which the probe for `key` stops
      (`d` itself once `Bound` is reached, which a table with an EMPTY slot
      never lets happen). */
  function StopStep<K(==), V>(slots: seq<Slot<K, V>>, h: HashCode, key: K, d: nat): (r: nat)
    requires |slots| > 0
    ensures d <= r && (d <= Bound(h, |slots|) ==> r <= Bound(h, |slots|))
    decreases Bound(h, |slots|) - d
  {
    if d >= Bound(h, |slots|) then d
    else if IsStop(slots[ProbeAt(h, |slots|, d)], h, key) then d
    else StopStep(slots, h, key, d + 1)
  }

  lemma {:induction false} StopStepIsFirst<K, V>(slots: seq<Slot<K, V>>, h: HashCode, key: K, d: nat)
    requires |slots| > 0 && d <= Bound(h, |slots|)
    ensures var r := StopStep(slots, h, key, d);
      d <= r <= Bound(h, |slots|) &&
      (r < Bound(h, |slots|) ==> IsStop(slots[ProbeAt(h, |slots|, r)], h, key)) &&
      forall u | d <= u < r :: !IsStop(slots[ProbeAt(h, |slots|, u)], h, key)
    decreases Bound(h, |slots|) - d
  {
    if d < Bound(h, |slots|) && !IsStop(slots[ProbeAt(h, |slots|, d)], h, key) {
      StopStepIsFirst(slots, h, key, d + 1);
    }
  }

  predicate HasEmpty<K, V>(slots: seq<Slot<K, V>>) {
    exists i | 0 <= i < |slots| :: slots[i].EmptySlot?
  }

  /** With an EMPTY slot in a power-of-two table, every probe stops within `Bound` steps. */
  lemma StopStepFound<K, V>(slots: seq<Slot<K, V>>, h: HashCode, key: K)
    requires IsPowerOfTwo(|slots|) && HasEmpty(slots)
    ensures StopStep(slots, h, key, 0) < Bound(h, |slots|)
  {
    var e :| 0 <= e < |slots| && slots[e].EmptySlot?;
    var t := ProbeCovers(h, |slots|, e);
    StopStepIsFirst(slots, h, key, 0);
  }

  /** A step at which the probe stops, with no stop before it, is the stop step. */
  lemma StopStepIs<K, V>(slots: seq<Slot<K, V>>, h: HashCode, key: K, t: nat)
    requires |slots| > 0 && t < Bound(h, |slots|)
    requires IsStop(slots[ProbeAt(h, |slots|, t)], h, key)
    requires forall u | 0 <= u < t :: !IsStop(slots[ProbeAt(h, |slots|, u)], h, key)
    ensures StopStep(slots, h, key, 0) == t
  {
    StopStepIsFirst(slots, h, key, 0);
  }

  /** Tables that agree on where a probe for `key` stops agree on its stop step. */
  lemma {:induction false} StopStepSame<K, V>(a: seq<Slot<K, V>>, b: seq<Slot<K, V>>, h: HashCode, key: K, d: nat)
    requires |a| == |b| > 0
    requires forall i | 0 <= i < |a| :: IsStop(a[i], h, key) == IsStop(b[i], h, key)
    ensures StopStep(a, h, key, d) == StopStep(b, h, key, d)
    decreases Bound(h, |a|) - d
  {
    if d < Bound(h, |a|) && !IsStop(a[ProbeAt(h, |a|, d)], h, key) {
      StopStepSame(a, b, h, key, d + 1);
    }
  }

  /** The first step, from step `d` on, at which the probe meets an EMPTY
      slot: where `resize` re-places an entry. */
  function FreeStep<K, V>(slots: seq<Slot<K, V>>, h: HashCode, d: nat): (r: nat)
    requires |slots| > 0
    ensures d <= r && (d <= Bound(h, |slots|) ==> r <= Bound(h, |slots|))
    decreases Bound(h, |slots|) - d
  {
    if d >= Bound(h, |slots|) then d
    else if slots[ProbeAt(h, |slots|, d)].EmptySlot? then d
    else FreeStep(slots, h, d + 1)
  }

  lemma {:induction false} FreeStepIsFirst<K, V>(slots: seq<Slot<K, V>>, h: HashCode, d: nat)
    requires |slots| > 0 && d <= Bound(h, |slots|)
    ensures var r := FreeStep(slots, h, d);
      d <= r <= Bound(h, |slots|) &&
      (r < Bound(h, |slots|) ==> slots[ProbeAt(h, |slots|, r)].EmptySlot?) &&
      forall u | d <= u < r :: !slots[ProbeAt(h, |slots|, u)].EmptySlot?
    decreases Bound(h, |slots|) - d
  {
    if d < Bound(h, |slots|) && !slots[ProbeAt(h, |slots|, d)].EmptySlot? {
      FreeStepIsFirst(slots, h, d + 1);
    }
  }

  /** With an EMPTY slot in a power-of-two table, the free-slot probe succeeds. */
  lemma FreeStepFound<K, V>(slots: seq<Slot<K, V>>, h: HashCode)
    requires IsPowerOfTwo(|slots|) && HasEmpty(slots)
    ensures FreeStep(slots, h, 0) < Bound(h, |slots|)
  {
    var e :| 0 <= e < |slots| && slots[e].EmptySlot?;
    var t := ProbeCovers(h, |slots|, e);
    FreeStepIsFirst(slots, h, 0);
  }

  /** The first step below `t` at which the probe meets a DUMMY slot. */
  function FirstDummyBelow<K, V>(slots: seq<Slot<K, V>>, h: HashCode, t: nat): (r: Option<nat>)
    requires |slots| > 0
    ensures r.Some? ==> r.value < t && slots[ProbeAt(h, |slots|, r.value)].DummySlot?
  {
    if t == 0 then None
    else
      var f := FirstDummyBelow(slots, h, t - 1);
      if f.Some? then f
      else if slots[ProbeAt(h, |slots|, t - 1)].DummySlot? then Some(t - 1)
      else None
  }

  lemma {:induction false} FirstDummyBelowIsFirst<K, V>(slots: seq<Slot<K, V>>, h: HashCode, t: nat)
    requires |slots| > 0
    ensures var r := FirstDummyBelow(slots, h, t);
      var limit := if r.Some? then r.value else t;
      forall u | 0 <= u < limit :: !slots[ProbeAt(h, |slots|, u)].DummySlot?
  {
    if t > 0 {
      FirstDummyBelowIsFirst(slots, h, t - 1);
    }
  }

  // ------------------------------------------------------------ the invariant

  /** Every live slot holds its key's own hash code. */
  predicate HashesMatch<K, V>(hash: K -> HashCode, slots: seq<Slot<K, V>>) {
    forall i | 0 <= i < |slots| && slots[i].LiveSlot? :: slots[i].hashCode == hash(slots[i].key)
  }

  /** No key is live in two slots. */
  predicate DistinctKeys<K(==), V>(slots: seq<Slot<K, V>>) {
    forall i, j | 0 <= i < j < |slots| && slots[i].LiveSlot? && slots[j].LiveSlot? :: slots[i].key != slots[j].key
  }

  /** The probe for the key of slot `j` stops at `j`. */
  predicate FoundAt<K(==), V>(slots: seq<Slot<K, V>>, j: nat)
    requires j < |slots| && slots[j].LiveSlot?
  {
    ProbeAt(slots[j].hashCode, |slots|, StopStep(slots, slots[j].hashCode, slots[j].key, 0)) == j
  }

  /** Every live key is found by probing for it. */
  predicate Reachable<K(==), V>(slots: seq<Slot<K, V>>) {
    forall j | 0 <= j < |slots| && slots[j].LiveSlot? :: FoundAt(slots, j)
  }

  predicate NoDummy<K, V>(slots: seq<Slot<K, V>>) {
    forall i | 0 <= i < |slots| :: !slots[i].DummySlot?
  }

  /** The number of live slots among the first `j`. */
  function LiveBelow<K, V>(slots: seq<Slot<K, V>>, j: nat): (c: nat)
    requires j <= |slots|
    ensures c <= j
  {
    if j == 0 then 0 else LiveBelow(slots, j - 1) + (if slots[j - 1].LiveSlot? then 1 else 0)
  }

  /** The number of slots that are not EMPTY among the first `j`. */
  function FilledBelow<K, V>(slots: seq<Slot<K, V>>, j: nat): (c: nat)
    requires j <= |slots|
    ensures LiveBelow(slots, j) <= c <= j
  {
    if j == 0 then 0 else FilledBelow(slots, j - 1) + (if slots[j - 1].EmptySlot? then 0 else 1)
  }

  /** What `used` counts. */
  function CountLive<K, V>(slots: seq<Slot<K, V>>): nat {
    LiveBelow(slots, |slots|)
  }

  /** What `fill` counts. */
  function CountFilled<K, V>(slots: seq<Slot<K, V>>): nat {
    FilledBelow(slots, |slots|)
  }

  /** The invariant the dict operations keep: a power-of-two table, `used`
      and `fill` counting live and non-EMPTY slots, at least one EMPTY slot,
      and every live key stored once, under its own hash code, where probing
      for it finds it. */
  predicate Valid<K(==), V>(hash: K -> HashCode, d: Dict<K, V>) {
    IsPowerOfTwo(|d.slots|) &&
    d.used == CountLive(d.slots) && d.fill == CountFilled(d.slots) && d.fill < |d.slots| &&
    HashesMatch(hash, d.slots) && DistinctKeys(d.slots) && Reachable(d.slots)
  }

  /** The key/value pairs held in the first `j` slots. */
  ghost function ContentsBelow<K, V>(slots: seq<Slot<K, V>>, j: nat): map<K, V>
    requires DistinctKeys(slots)
  {
    map p | 0 <= p < j && p < |slots| && slots[p].LiveSlot? :: slots[p].key := slots[p].value
  }

  /** The mapping the dict represents. */
  ghost function Contents<K, V>(slots: seq<Slot<K, V>>): map<K, V>
    requires DistinctKeys(slots)
  {
    ContentsBelow(slots, |slots|)
  }

  // ------------------------------------------------------------ counting

  lemma {:induction false} CountWrite<K, V>(slots: seq<Slot<K, V>>, i: nat, s: Slot<K, V>, j: nat)
    requires i < |slots| && j <= |slots|
    ensures LiveBelow(slots[i := s], j) ==
      LiveBelow(slots, j) + (if i < j then (if s.LiveSlot? then 1 else 0) - (if slots[i].LiveSlot? then 1 else 0) else 0)
    ensures FilledBelow(slots[i := s], j) ==
      FilledBelow(slots, j) + (if i < j then (if s.EmptySlot? then 0 else 1) - (if slots[i].EmptySlot? then 0 else 1) else 0)
  {
    if j > 0 {
      CountWrite(slots, i, s, j - 1);
    }
  }

  /** Fewer filled slots than slots means some slot is EMPTY. */
  lemma {:induction false} EmptyExists<K, V>(slots: seq<Slot<K, V>>, j: nat)
    requires j <= |slots| && FilledBelow(slots, j) < j
    ensures exists i | 0 <= i < j :: slots[i].EmptySlot?
  {
    if !slots[j - 1].EmptySlot? {
      EmptyExists(slots, j - 1);
    }
  }

  /** In a table without DUMMY slots every filled slot is live. */
  lemma {:induction false} NoDummyCounts<K, V>(slots: seq<Slot<K, V>>, j: nat)
    requires j <= |slots| && NoDummy(slots)
    ensures LiveBelow(slots, j) == FilledBelow(slots, j)
  {
    if j > 0 {
      NoDummyCounts(slots, j - 1);
    }
  }

  lemma {:induction false} LiveBelowMonotone<K, V>(slots: seq<Slot<K, V>>, j: nat, k: nat)
    requires j <= k <= |slots|
    ensures LiveBelow(slots, j) <= LiveBelow(slots, k)
    decreases k
  {
    if j < k {
      LiveBelowMonotone(slots, j, k - 1);
    }
  }

  /** `[Slot() for _ in range(n)]`. */
  function EmptySlots<K, V>(n: nat): (s: seq<Slot<K, V>>)
    ensures |s| == n
  {
    seq(n, _ => EmptySlot)
  }

  lemma {:induction false} EmptySlotsCounts<K, V>(n: nat, j: nat)
    requires j <= n
    ensures FilledBelow(EmptySlots<K, V>(n), j) == 0
  {
    if j > 0 {
      EmptySlotsCounts<K, V>(n, j - 1);
    }
  }

  /** `used <= fill < len(slots)` holds in every valid dict. */
  lemma CountersOrdered<K, V>(hash: K -> HashCode, d: Dict<K, V>)
    requires Valid(hash, d)
    ensures 0 <= d.used <= d.fill < |d.slots|
    ensures HasEmpty(d.slots)
  {
    EmptyExists(d.slots, |d.slots|);
  }

  // ------------------------------------------------------------ contents

  /** A key is in the contents exactly when some slot holds it live, with its value. */
  lemma ContentsAt<K, V>(slots: seq<Slot<K, V>>, j: nat)
    requires DistinctKeys(slots) && j < |slots| && slots[j].LiveSlot?
    ensures slots[j].key in Contents(slots) && Contents(slots)[slots[j].key] == slots[j].value
  {
  }

  lemma ContentsHas<K, V>(slots: seq<Slot<K, V>>, key: K) returns (j: nat)
    requires DistinctKeys(slots) && key in Contents(slots)
    ensures j < |slots| && slots[j].LiveSlot? && slots[j].key == key && Contents(slots)[key] == slots[j].value
  {
    j :| 0 <= j < |slots| && slots[j].LiveSlot? && slots[j].key == key;
  }

  /** Writing a new key into slot `i` adds it to the contents. */
  lemma ContentsWriteAbsent<K, V>(slots: seq<Slot<K, V>>, i: nat, h: HashCode, key: K, value: V)
    requires DistinctKeys(slots) && i < |slots| && !slots[i].LiveSlot?
    requires forall j | 0 <= j < |slots| && slots[j].LiveSlot? :: slots[j].key != key
    ensures var r := slots[i := LiveSlot(h, key, value)];
      DistinctKeys(r) && Contents(r) == Contents(slots)[key := value]
  {
    var r := slots[i := LiveSlot(h, key, value)];
    assert DistinctKeys(r);
    forall k | k in Contents(r)
      ensures k in Contents(slots)[key := value] && Contents(r)[k] == Contents(slots)[key := value][k]
    {
      var j := ContentsHas(r, k);
      if j != i {
        ContentsAt(slots, j);
      }
    }
    forall k | k in Contents(slots)[key := value]
      ensures k in Contents(r)
    {
      if k == key {
        ContentsAt(r, i);
      } else {
        var j := ContentsHas(slots, k);
        ContentsAt(r, j);
      }
    }
  }

  /** Rewriting the value of the slot holding `key` updates the contents. */
  lemma ContentsOverwrite<K, V>(slots: seq<Slot<K, V>>, i: nat, value: V)
    requires DistinctKeys(slots) && i < |slots| && slots[i].LiveSlot?
    ensures var r := slots[i := LiveSlot(slots[i].hashCode, slots[i].key, value)];
      DistinctKeys(r) && Contents(r) == Contents(slots)[slots[i].key := value]
  {
    var key := slots[i].key;
    var r := slots[i := LiveSlot(slots[i].hashCode, key, value)];
    assert DistinctKeys(r);
    forall k | k in Contents(r)
      ensures k in Contents(slots)[key := value] && Contents(r)[k] == Contents(slots)[key := value][k]
    {
      var j := ContentsHas(r, k);
      if j != i {
        ContentsAt(slots, j);
      }
    }
    forall k | k in Contents(slots)[key := value]
      ensures k in Contents(r)
    {
      if k == key {
        ContentsAt(r, i);
      } else {
        var j := ContentsHas(slots, k);
        ContentsAt(r, j);
      }
    }
  }

  /** Turning the slot holding `key` into a DUMMY removes the key from the contents. */
  lemma ContentsDelete<K, V>(slots: seq<Slot<K, V>>, i: nat)
    requires DistinctKeys(slots) && i < |slots| && slots[i].LiveSlot?
    ensures var r := slots[i := DummySlot(slots[i].hashCode)];
      DistinctKeys(r) && Contents(r) == Contents(slots) - {slots[i].key}
  {
    var key := slots[i].key;
    var r := slots[i := DummySlot(slots[i].hashCode)];
    assert DistinctKeys(r);
    forall k | k in Contents(r)
      ensures k in Contents(slots) - {key} && Contents(r)[k] == Contents(slots)[k]
    {
      var j := ContentsHas(r, k);
      ContentsAt(slots, j);
    }
    forall k | k in Contents(slots) - {key}
      ensures k in Contents(r)
    {
      var j := ContentsHas(slots, k);
      ContentsAt(r, j);
    }
  }

  // ------------------------------------------------------------ probing after a write

  /** Writing a new key into the first slot of its probe that is not live
      keeps every key reachable, the new one included. */
  lemma WriteAbsentReachable<K, V>(slots: seq<Slot<K, V>>, i: nat, h: HashCode, key: K, value: V, u: nat)
    requires IsPowerOfTwo(|slots|) && HasEmpty(slots) && Reachable(slots)
    requires forall j | 0 <= j < |slots| && slots[j].LiveSlot? :: slots[j].key != key
    requires u < Bound(h, |slots|) && i == ProbeAt(h, |slots|, u) && !slots[i].LiveSlot?
    requires forall w | 0 <= w < u :: slots[ProbeAt(h, |slots|, w)].LiveSlot?
    ensures Reachable(slots[i := LiveSlot(h, key, value)])
  {
    var n := |slots|;
    var r := slots[i := LiveSlot(h, key, value)];
    assert forall w | 0 <= w < u :: !IsStop(r[ProbeAt(h, n, w)], h, key);
    StopStepIs(r, h, key, u);
    forall j | 0 <= j < n && r[j].LiveSlot? && j != i
      ensures FoundAt(r, j)
    {
      WriteKeepsFound(slots, i, LiveSlot(h, key, value), j);
    }
  }

  /** Writing, into another slot, a slot that does not stop the probe for
      the key of slot `j` leaves that key found where it was. */
  lemma WriteKeepsFound<K, V>(slots: seq<Slot<K, V>>, i: nat, s: Slot<K, V>, j: nat)
    requires IsPowerOfTwo(|slots|) && HasEmpty(slots)
    requires i < |slots| && j < |slots| && i != j && slots[j].LiveSlot? && FoundAt(slots, j)
    requires !IsStop(s, slots[j].hashCode, slots[j].key)
    ensures FoundAt(slots[i := s], j)
  {
    var n := |slots|;
    var r := slots[i := s];
    var hj, kj := slots[j].hashCode, slots[j].key;
    StopStepFound(slots, hj, kj);
    StopStepIsFirst(slots, hj, kj, 0);
    var t := StopStep(slots, hj, kj, 0);
    assert forall w | 0 <= w < t :: !IsStop(r[ProbeAt(hj, n, w)], hj, kj);
    StopStepIs(r, hj, kj, t);
  }

  /** Rewriting a live slot with its own hash code, as a live slot of the
      same key or as a DUMMY, keeps every other key reachable. */
  lemma RewriteReachable<K, V>(slots: seq<Slot<K, V>>, i: nat, s: Slot<K, V>)
    requires DistinctKeys(slots) && Reachable(slots) && i < |slots| && slots[i].LiveSlot?
    requires s.DummySlot? || (s.LiveSlot? && s.key == slots[i].key)
    requires s.hashCode == slots[i].hashCode
    ensures Reachable(slots[i := s])
  {
    var r := slots[i := s];
    forall j | 0 <= j < |r| && r[j].LiveSlot?
      ensures FoundAt(r, j)
    {
      var hj, kj := r[j].hashCode, r[j].key;
      assert IsStop(r[i], hj, kj) == IsStop(slots[i], hj, kj);
      StopStepSame(slots, r, hj, kj, 0);
    }
  }

  // ------------------------------------------------------------ lookdict, __getitem__

  /** `lookdict`: the index of the slot holding `key`, or KeyError once the
      probe meets an EMPTY slot; DUMMY slots do not stop it. */
  function Lookdict<K(==), V>(hash: K -> HashCode, slots: seq<Slot<K, V>>, key: K): (r: Result<nat>)
    requires |slots| > 0
    ensures r.Success? ==> r.value < |slots| && Matches(slots[r.value], hash(key), key)
    ensures r.Failure? ==> r.error == KeyError
  {
    var h := hash(key);
    var i := ProbeAt(h, |slots|, StopStep(slots, h, key, 0));
    if Matches(slots[i], h, key) then Success(i) else Failure(KeyError)
  }

  /** On a valid dict, lookdict finds the slot holding the key exactly when
      the key is present, and raises KeyError exactly when it is absent. */
  lemma LookdictCorrect<K, V>(hash: K -> HashCode, d: Dict<K, V>, key: K)
    requires Valid(hash, d)
    ensures Lookdict(hash, d.slots, key).Success? <==> key in Contents(d.slots)
    ensures key in Contents(d.slots) ==>
      d.slots[Lookdict(hash, d.slots, key).value] == LiveSlot(hash(key), key, Contents(d.slots)[key])
  {
    if key in Contents(d.slots) {
      var j := ContentsHas(d.slots, key);
      assert FoundAt(d.slots, j);
    } else if Lookdict(hash, d.slots, key).Success? {
      ContentsAt(d.slots, Lookdict(hash, d.slots, key).value);
    }
  }

  /** `__getitem__`: the value of the slot lookdict finds. */
  function GetItem<K(==), V>(hash: K -> HashCode, d: Dict<K, V>, key: K): (r: Result<V>)
    requires |d.slots| > 0
    ensures r.Success? ==> exists i | 0 <= i < |d.slots| :: d.slots[i] == LiveSlot(hash(key), key, r.value)
    ensures r.Failure? ==> r.error == KeyError
  {
    match Lookdict(hash, d.slots, key)
    case Success(i) => Success(d.slots[i].value)
    case Failure(e) => Failure(e)
  }

  /** On a valid dict `d[key]` is the value the dict maps `key` to, and KeyError when there is none. */
  lemma GetItemCorrect<K, V>(hash: K -> HashCode, d: Dict<K, V>, key: K)
    requires Valid(hash, d)
    ensures GetItem(hash, d, key) ==
      if key in Contents(d.slots) then Success(Contents(d.slots)[key]) else Failure(KeyError)
  {
    LookdictCorrect(hash, d, key);
  }

  // ------------------------------------------------------------ __delitem__

  /** `__delitem__`: KeyError for an absent key; otherwise the slot lookdict
      finds becomes a DUMMY that keeps its hash code, `used` drops by one and
      `fill` stays. */
  function DelItem<K(==), V>(hash: K -> HashCode, d: Dict<K, V>, key: K): (r: Result<Dict<K, V>>)
    requires |d.slots| > 0
    ensures r.Failure? ==> r.error == KeyError
    ensures r.Success? ==>
      r.value.used == d.used - 1 && r.value.fill == d.fill &&
      exists i | 0 <= i < |d.slots| :: Matches(d.slots[i], hash(key), key) &&
        r.value.slots == d.slots[i := DummySlot(hash(key))]
  {
    match Lookdict(hash, d.slots, key)
    case Success(i) => Success(Dict(d.slots[i := DummySlot(d.slots[i].hashCode)], d.used - 1, d.fill))
    case Failure(e) => Failure(e)
  }

  /** Deleting a present key keeps the dict valid and removes exactly that
      key; deleting an absent key raises KeyError. */
  lemma DelItemCorrect<K, V>(hash: K -> HashCode, d: Dict<K, V>, key: K)
    requires Valid(hash, d)
    ensures key !in Contents(d.slots) <==> DelItem(hash, d, key) == Failure(KeyError)
    ensures key in Contents(d.slots) ==> var r := DelItem(hash, d, key).value;
      Valid(hash, r) && Contents(r.slots) == Contents(d.slots) - {key} &&
      r.used == d.used - 1 && r.fill == d.fill && |r.slots| == |d.slots|
  {
    LookdictCorrect(hash, d, key);
    if key in Contents(d.slots) {
      var i := Lookdict(hash, d.slots, key).value;
      var r := d.slots[i := DummySlot(d.slots[i].hashCode)];
      CountWrite(d.slots, i, DummySlot(d.slots[i].hashCode), |d.slots|);
      ContentsDelete(d.slots, i);
      RewriteReachable(d.slots, i, DummySlot(d.slots[i].hashCode));
    }
  }

  /** After `del d[key]`, `d[key]` raises KeyError and every other key keeps its value. */
  lemma DelThenGet<K, V>(hash: K -> HashCode, d: Dict<K, V>, key: K, other: K)
    requires Valid(hash, d) && key in Contents(d.slots)
    ensures GetItem(hash, DelItem(hash, d, key).value, key) == Failure(KeyError)
    ensures other != key ==> GetItem(hash, DelItem(hash, d, key).value, other) == GetItem(hash, d, other)
  {
    DelItemCorrect(hash, d, key);
    var r := DelItem(hash, d, key).value;
    GetItemCorrect(hash, r, key);
    GetItemCorrect(hash, r, other);
    GetItemCorrect(hash, d, other);
  }

  // ------------------------------------------------------------ resize

  /** Store a live slot in the first EMPTY slot of its probe, without comparing keys. */
  function Place<K, V>(slots: seq<Slot<K, V>>, s: Slot<K, V>): (r: seq<Slot<K, V>>)
    requires |slots| > 0 && s.LiveSlot?
    ensures |r| == |slots|
  {
    slots[ProbeAt(s.hashCode, |slots|, FreeStep(slots, s.hashCode, 0)) := s]
  }

  /** The new slots after the first `j` old slots have been re-placed. */
  function ReinsertBelow<K, V>(oldSlots: seq<Slot<K, V>>, newSize: nat, j: nat): (r: seq<Slot<K, V>>)
    requires newSize > 0 && j <= |oldSlots|
    ensures |r| == newSize
  {
    if j == 0 then EmptySlots(newSize)
    else
      var t := ReinsertBelow(oldSlots, newSize, j - 1);
      if oldSlots[j - 1].LiveSlot? then Place(t, oldSlots[j - 1]) else t
  }

  /** `resize`: `newSize` fresh slots, `fill = used`, and every live slot of
      the old table re-placed in order. */
  function Resize<K, V>(d: Dict<K, V>, newSize: nat): (r: Dict<K, V>)
    requires newSize > 0
    ensures |r.slots| == newSize && r.used == d.used && r.fill == d.used
  {
    Dict(ReinsertBelow(d.slots, newSize, |d.slots|), d.used, d.used)
  }

  ghost predicate ReinsertInvariant<K, V>(hash: K -> HashCode, oldSlots: seq<Slot<K, V>>, r: seq<Slot<K, V>>, j: nat)
    requires j <= |oldSlots| && DistinctKeys(oldSlots)
  {
    NoDummy(r) && HashesMatch(hash, r) && DistinctKeys(r) && Reachable(r) &&
    CountFilled(r) == LiveBelow(oldSlots, j) && Contents(r) == ContentsBelow(oldSlots, j)
  }

  lemma ContentsBelowStep<K, V>(oldSlots: seq<Slot<K, V>>, j: nat)
    requires DistinctKeys(oldSlots) && 0 < j <= |oldSlots|
    ensures var s := oldSlots[j - 1];
      ContentsBelow(oldSlots, j) ==
        if s.LiveSlot? then ContentsBelow(oldSlots, j - 1)[s.key := s.value] else ContentsBelow(oldSlots, j - 1)
    ensures oldSlots[j - 1].LiveSlot? ==> oldSlots[j - 1].key !in ContentsBelow(oldSlots, j - 1)
  {
  }

  /** Placing a live slot whose key the table does not hold adds that key
      and keeps every key reachable. */
  lemma PlaceAbsent<K, V>(hash: K -> HashCode, t: seq<Slot<K, V>>, s: Slot<K, V>)
    requires IsPowerOfTwo(|t|) && HasEmpty(t) && NoDummy(t)
    requires HashesMatch(hash, t) && DistinctKeys(t) && Reachable(t)
    requires s.LiveSlot? && s.hashCode == hash(s.key) && s.key !in Contents(t)
    ensures var r := Place(t, s);
      NoDummy(r) && HashesMatch(hash, r) && DistinctKeys(r) && Reachable(r) &&
      CountFilled(r) == CountFilled(t) + 1 && Contents(r) == Contents(t)[s.key := s.value]
  {
    FreeStepFound(t, s.hashCode);
    FreeStepIsFirst(t, s.hashCode, 0);
    var u := FreeStep(t, s.hashCode, 0);
    var i := ProbeAt(s.hashCode, |t|, u);
    forall q | 0 <= q < |t| && t[q].LiveSlot?
      ensures t[q].key != s.key
    {
      ContentsAt(t, q);
    }
    WriteAbsentReachable(t, i, s.hashCode, s.key, s.value, u);
    ContentsWriteAbsent(t, i, s.hashCode, s.key, s.value);
    CountWrite(t, i, s, |t|);
  }

  /** Re-placing one more old live slot keeps the invariant. */
  lemma ReinsertStep<K, V>(hash: K -> HashCode, oldSlots: seq<Slot<K, V>>, newSize: nat, j: nat)
    requires HashesMatch(hash, oldSlots) && DistinctKeys(oldSlots) && IsPowerOfTwo(newSize) && CountLive(oldSlots) < newSize
    requires 0 < j <= |oldSlots| && oldSlots[j - 1].LiveSlot?
    requires ReinsertInvariant(hash, oldSlots, ReinsertBelow(oldSlots, newSize, j - 1), j - 1)
    ensures ReinsertInvariant(hash, oldSlots, ReinsertBelow(oldSlots, newSize, j), j)
  {
    var t := ReinsertBelow(oldSlots, newSize, j - 1);
    LiveBelowMonotone(oldSlots, j, |oldSlots|);
    EmptyExists(t, |t|);
    ContentsBelowStep(oldSlots, j);
    PlaceAbsent(hash, t, oldSlots[j - 1]);
  }

  /** An EMPTY or DUMMY old slot is skipped. */
  lemma ReinsertSkip<K, V>(hash: K -> HashCode, oldSlots: seq<Slot<K, V>>, newSize: nat, j: nat)
    requires DistinctKeys(oldSlots) && newSize > 0 && 0 < j <= |oldSlots| && !oldSlots[j - 1].LiveSlot?
    requires ReinsertInvariant(hash, oldSlots, ReinsertBelow(oldSlots, newSize, j - 1), j - 1)
    ensures ReinsertInvariant(hash, oldSlots, ReinsertBelow(oldSlots, newSize, j), j)
  {
    ContentsBelowStep(oldSlots, j);
  }

  /** The fresh table holds nothing. */
  lemma ReinsertStart<K, V>(hash: K -> HashCode, oldSlots: seq<Slot<K, V>>, newSize: nat)
    requires DistinctKeys(oldSlots) && newSize > 0
    ensures ReinsertInvariant(hash, oldSlots, EmptySlots(newSize), 0)
  {
    EmptySlotsCounts<K, V>(newSize, newSize);
    assert Contents(EmptySlots<K, V>(newSize)) == map[];
  }

  lemma {:induction false} ReinsertKeeps<K, V>(hash: K -> HashCode, oldSlots: seq<Slot<K, V>>, newSize: nat, j: nat)
    requires HashesMatch(hash, oldSlots) && DistinctKeys(oldSlots) && IsPowerOfTwo(newSize) && CountLive(oldSlots) < newSize
    requires j <= |oldSlots|
    ensures ReinsertInvariant(hash, oldSlots, ReinsertBelow(oldSlots, newSize, j), j)
  {
    if j == 0 {
      ReinsertStart(hash, oldSlots, newSize);
    } else {
      ReinsertKeeps(hash, oldSlots, newSize, j - 1);
      if oldSlots[j - 1].LiveSlot? {
        ReinsertStep(hash, oldSlots, newSize, j);
      } else {
        ReinsertSkip(hash, oldSlots, newSize, j);
      }
    }
  }

  /** Resizing a dict whose live keys are distinct and hashed right yields
      a valid dict of the new size with the same contents, the same `used`,
      `fill == used` and no DUMMY slot. */
  lemma ResizeCorrect<K, V>(hash: K -> HashCode, d: Dict<K, V>, newSize: nat)
    requires HashesMatch(hash, d.slots) && DistinctKeys(d.slots) && d.used == CountLive(d.slots)
    requires IsPowerOfTwo(newSize) && d.used < newSize
    ensures var r := Resize(d, newSize);
      Valid(hash, r) && |r.slots| == newSize && NoDummy(r.slots) &&
      r.used == r.fill == d.used && Contents(r.slots) == Contents(d.slots)
  {
    ReinsertKeeps(hash, d.slots, newSize, |d.slots|);
    NoDummyCounts(Resize(d, newSize).slots, newSize);
  }

  /** The next step of `resize`'s loop, seen from outside: a live slot is
      placed in a table that still has an EMPTY slot, anything else is skipped. */
  lemma ReinsertNext<K, V>(hash: K -> HashCode, oldSlots: seq<Slot<K, V>>, newSize: nat, j: nat)
    requires HashesMatch(hash, oldSlots) && DistinctKeys(oldSlots) && IsPowerOfTwo(newSize) && CountLive(oldSlots) < newSize
    requires j < |oldSlots|
    ensures var t := ReinsertBelow(oldSlots, newSize, j);
      ReinsertBelow(oldSlots, newSize, j + 1) == if oldSlots[j].LiveSlot? then Place(t, oldSlots[j]) else t
    ensures oldSlots[j].LiveSlot? ==> HasEmpty(ReinsertBelow(oldSlots, newSize, j))
  {
    if oldSlots[j].LiveSlot? {
      var t := ReinsertBelow(oldSlots, newSize, j);
      ReinsertKeeps(hash, oldSlots, newSize, j);
      LiveBelowMonotone(oldSlots, j + 1, |oldSlots|);
      EmptyExists(t, |t|);
    }
  }

  /** A fresh table of a power-of-two size is a valid, empty dict. */
  lemma EmptyDictValid<K, V>(hash: K -> HashCode, n: nat)
    requires IsPowerOfTwo(n)
    ensures Valid(hash, Dict(EmptySlots<K, V>(n), 0, 0)) && Contents(EmptySlots<K, V>(n)) == map[]
  {
    EmptySlotsCounts<K, V>(n, n);
    LiveBelowMonotone(EmptySlots<K, V>(n), n, n);
  }

  /** Resizing does not change what any key maps to. */
  lemma ResizeThenGet<K, V>(hash: K -> HashCode, d: Dict<K, V>, newSize: nat, key: K)
    requires Valid(hash, d) && IsPowerOfTwo(newSize) && d.used < newSize
    ensures GetItem(hash, Resize(d, newSize), key) == GetItem(hash, d, key)
  {
    ResizeCorrect(hash, d, newSize);
    GetItemCorrect(hash, d, key);
    GetItemCorrect(hash, Resize(d, newSize), key);
  }

  // ------------------------------------------------------------ __setitem__

  /** The slot `__setitem__` writes: the slot holding `key` if the probe
      meets it before an EMPTY slot, otherwise the first DUMMY slot met on the
      way, otherwise the EMPTY slot that ended the probe. */
  function SetTarget<K(==), V>(slots: seq<Slot<K, V>>, h: HashCode, key: K): (i: nat)
    requires |slots| > 0
    ensures i < |slots|
  {
    var t := StopStep(slots, h, key, 0);
    var stop := ProbeAt(h, |slots|, t);
    if Matches(slots[stop], h, key) then stop
    else match FirstDummyBelow(slots, h, t)
      case Some(u) => ProbeAt(h, |slots|, u)
      case None => stop
  }

  /** On a valid dict the target of `__setitem__` is the slot holding the key
      when it is present, and otherwise the first slot of the key's probe that
      is not live: the first DUMMY before the EMPTY slot, or that EMPTY slot. */
  lemma SetTargetChoice<K, V>(hash: K -> HashCode, d: Dict<K, V>, key: K) returns (u: nat)
    requires Valid(hash, d)
    ensures var i := SetTarget(d.slots, hash(key), key);
      u < Bound(hash(key), |d.slots|) && i == ProbeAt(hash(key), |d.slots|, u) &&
      (key in Contents(d.slots) ==> d.slots[i] == LiveSlot(hash(key), key, Contents(d.slots)[key])) &&
      (key !in Contents(d.slots) ==>
        !d.slots[i].LiveSlot? && forall w | 0 <= w < u :: d.slots[ProbeAt(hash(key), |d.slots|, w)].LiveSlot?)
  {
    var h, n := hash(key), |d.slots|;
    CountersOrdered(hash, d);
    StopStepFound(d.slots, h, key);
    StopStepIsFirst(d.slots, h, key, 0);
    LookdictCorrect(hash, d, key);
    var t := StopStep(d.slots, h, key, 0);
    FirstDummyBelowIsFirst(d.slots, h, t);
    var f := FirstDummyBelow(d.slots, h, t);
    if Matches(d.slots[ProbeAt(h, n, t)], h, key) || f.None? {
      u := t;
    } else {
      u := f.value;
    }
  }

  /** What the dict's size policy (`find_optimal_size`) must give: a power
      of two in which `used` entries fill less than two thirds of the slots,
      so that the rehash does not trigger another resize. */
  ghost predicate SizePolicy(findOptimalSize: nat -> nat) {
    forall used: nat :: IsPowerOfTwo(findOptimalSize(used)) && used * 3 < findOptimalSize(used) * 2
  }

  /** `__setitem__`: write `(hash(key), key, value)` into the target slot;
      `used` grows unless the key was live there, `fill` grows when the slot
      was EMPTY; then resize to `findOptimalSize(used)` slots when
      `fill * 3 >= len(slots) * 2`. */
  function SetItem<K(==), V>(hash: K -> HashCode, findOptimalSize: nat -> nat, d: Dict<K, V>, key: K, value: V): (r: Dict<K, V>)
    requires |d.slots| > 0 && d.used >= 0 && SizePolicy(findOptimalSize)
    ensures |r.slots| > 0 && r.fill * 3 < |r.slots| * 2
  {
    var written := Written(hash, d, key, value);
    if written.fill * 3 >= |written.slots| * 2 then Resize(written, findOptimalSize(written.used)) else written
  }

  /** The dict right after `__setitem__` writes its target slot, before the
      load-factor check. */
  function Written<K(==), V>(hash: K -> HashCode, d: Dict<K, V>, key: K, value: V): (r: Dict<K, V>)
    requires |d.slots| > 0
    ensures |r.slots| == |d.slots|
  {
    var h := hash(key);
    var i := SetTarget(d.slots, h, key);
    var used := if d.slots[i].LiveSlot? then d.used else d.used + 1;
    var fill := if d.slots[i].EmptySlot? then d.fill + 1 else d.fill;
    Dict(d.slots[i := LiveSlot(h, key, value)], used, fill)
  }

  /** Writing the target keeps every key reachable and every count exact,
      maps `key` to `value`, and leaves `fill` at most the table size. */
  lemma WrittenCorrect<K, V>(hash: K -> HashCode, d: Dict<K, V>, key: K, value: V)
    requires Valid(hash, d)
    ensures var r := Written(hash, d, key, value);
      HashesMatch(hash, r.slots) && DistinctKeys(r.slots) && Reachable(r.slots) &&
      r.used == CountLive(r.slots) && r.fill == CountFilled(r.slots) && r.fill <= |r.slots| &&
      Contents(r.slots) == Contents(d.slots)[key := value] &&
      r.used == d.used + (if key in Contents(d.slots) then 0 else 1)
  {
    var h := hash(key);
    var u := SetTargetChoice(hash, d, key);
    var i := SetTarget(d.slots, h, key);
    var s := LiveSlot(h, key, value);
    CountersOrdered(hash, d);
    CountWrite(d.slots, i, s, |d.slots|);
    if key in Contents(d.slots) {
      ContentsOverwrite(d.slots, i, value);
      RewriteReachable(d.slots, i, s);
    } else {
      forall j | 0 <= j < |d.slots| && d.slots[j].LiveSlot?
        ensures d.slots[j].key != key
      {
        ContentsAt(d.slots, j);
      }
      WriteAbsentReachable(d.slots, i, h, key, value, u);
      ContentsWriteAbsent(d.slots, i, h, key, value);
    }
  }

  /** `__setitem__` keeps a valid dict valid, maps `key` to `value` and
      leaves every other key alone; `used` grows by one exactly when the key
      was absent; afterwards `fill` is below two thirds of the size, whether
      or not a resize ran, and a resize drops every DUMMY (`fill == used`). */
  lemma SetItemCorrect<K, V>(hash: K -> HashCode, findOptimalSize: nat -> nat, d: Dict<K, V>, key: K, value: V)
    requires Valid(hash, d) && SizePolicy(findOptimalSize)
    ensures var r := SetItem(hash, findOptimalSize, d, key, value);
      Valid(hash, r) && Contents(r.slots) == Contents(d.slots)[key := value] &&
      r.used == d.used + (if key in Contents(d.slots) then 0 else 1) &&
      r.fill * 3 < |r.slots| * 2
    ensures var w := Written(hash, d, key, value);
      w.fill * 3 >= |w.slots| * 2 ==> SetItem(hash, findOptimalSize, d, key, value).fill == w.used
  {
    var w := Written(hash, d, key, value);
    WrittenCorrect(hash, d, key, value);
    assert SetItem(hash, findOptimalSize, d, key, value) ==
      if w.fill * 3 >= |w.slots| * 2 then Resize(w, findOptimalSize(w.used)) else w;
    if w.fill * 3 >= |w.slots| * 2 {
      assert IsPowerOfTwo(findOptimalSize(w.used)) && w.used * 3 < findOptimalSize(w.used) * 2;
      ResizeCorrect(hash, w, findOptimalSize(w.used));
    }
  }

  /** After `d[key] = value`, `d[key]` is `value` and every other key keeps its value. */
  lemma SetThenGet<K, V>(hash: K -> HashCode, findOptimalSize: nat -> nat, d: Dict<K, V>, key: K, value: V, other: K)
    requires Valid(hash, d) && SizePolicy(findOptimalSize)
    ensures GetItem(hash, SetItem(hash, findOptimalSize, d, key, value), key) == Success(value)
    ensures other != key ==>
      GetItem(hash, SetItem(hash, findOptimalSize, d, key, value), other) == GetItem(hash, d, other)
  {
    SetItemCorrect(hash, findOptimalSize, d, key, value);
    var r := SetItem(hash, findOptimalSize, d, key, value);
    GetItemCorrect(hash, r, key);
    GetItemCorrect(hash, r, other);
    GetItemCorrect(hash, d, other);
  }
}
