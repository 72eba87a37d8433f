/** The hash table of chapter 2: two index-aligned lists, `hashCodes` and
    `keys`, with open addressing and linear probing (`idx = (idx + 1) % size`).
    An EMPTY slot holds neither a hash code nor a key.  Removing a key leaves
    the DUMMY placeholder in `keys` and the stale hash code in `hashCodes`.

    Every operation is a method over arrays, proved equal to a specification
    function on `Table` values; the lemmas about those functions state what
    the operations promise. */
module HashTableFunctions {
  import opened HashCommon
  import opened FullPeriod

  /** A slot of the `keys` list: EMPTY (`null`), the DUMMY placeholder, or a key. */
  datatype KeyCell<K> = Empty | Dummy | Key(key: K)

  /** The two lists, as values. */
  datatype Table<K> = Table(hashCodes: seq<Option<HashCode>>, keys: seq<KeyCell<K>>)

  // ------------------------------------------------------------ positions

  /** The slot visited after `d` linear-probing steps from slot `s`. */
  function Pos(s: nat, d: nat, n: nat): (p: nat)
    requires n > 0
    ensures p < n
  {
    (s + d) % n
  }

  /** The number of linear-probing steps from slot `s` to slot `j`. */
  function Dist(s: nat, j: nat, n: nat): nat
    requires s < n && j < n
  {
    if s <= j then j - s else j + n - s
  }

  lemma PosNext(s: nat, d: nat, n: nat)
    requires n > 0
    ensures (Pos(s, d, n) + 1) % n == Pos(s, d + 1, n)
  {
    ModUnique(s + d, n, (s + d) / n, Pos(s, d, n));
    ModAddMultiple(Pos(s, d, n) + 1, (s + d) / n, n);
  }

  lemma PosDist(s: nat, j: nat, n: nat)
    requires s < n && j < n
    ensures Dist(s, j, n) < n && Pos(s, Dist(s, j, n), n) == j
  {
    if s <= j {
      ModUnique(j, n, 0, j);
    } else {
      ModUnique(j + n, n, 1, j);
    }
  }

  lemma DistPos(s: nat, d: nat, n: nat)
    requires s < n && d < n
    ensures Dist(s, Pos(s, d, n), n) == d
  {
    if s + d < n {
      ModUnique(s + d, n, 0, s + d);
    } else {
      ModUnique(s + d, n, 1, s + d - n);
    }
  }

  // ------------------------------------------------------------ invariants

  /** What the operations need of their input: two lists of one size, and a
      hash code wherever the key is not EMPTY. */
  predicate WellFormed<K>(t: Table<K>) {
    |t.hashCodes| == |t.keys| &&
    forall i | 0 <= i < |t.keys| :: !t.keys[i].Empty? ==> t.hashCodes[i].Some?
  }

  /** An EMPTY key slot has no hash code either. */
  predicate Aligned<K>(t: Table<K>)
    requires WellFormed(t)
  {
    forall i | 0 <= i < |t.keys| :: t.keys[i].Empty? ==> t.hashCodes[i].None?
  }

  /** Every stored key sits next to its own hash code. */
  predicate HashesMatch<K>(hash: K -> HashCode, t: Table<K>)
    requires WellFormed(t)
  {
    forall i | 0 <= i < |t.keys| && t.keys[i].Key? :: t.hashCodes[i] == Some(hash(t.keys[i].key))
  }

  /** No key is stored twice. */
  predicate DistinctKeys<K(==)>(t: Table<K>) {
    forall i, j | 0 <= i < j < |t.keys| && t.keys[i].Key? && t.keys[j].Key? :: t.keys[i].key != t.keys[j].key
  }

  /** No slot on the way from `s` to `j` (excluding `j`) is EMPTY. */
  predicate ClearPath<K>(t: Table<K>, s: nat, j: nat)
    requires s < |t.keys| && j < |t.keys|
  {
    forall d | 0 <= d < Dist(s, j, |t.keys|) :: !t.keys[Pos(s, d, |t.keys|)].Empty?
  }

  /** Every stored key can be reached by probing from the slot its stored hash code selects. */
  predicate Reachable<K>(t: Table<K>)
    requires WellFormed(t)
  {
    forall j | 0 <= j < |t.keys| && t.keys[j].Key? ::
      ClearPath(t, ComputeIdx(t.hashCodes[j].value, |t.keys|), j)
  }

  /** The invariant of a table built and maintained by the operations. */
  predicate Valid<K(==)>(hash: K -> HashCode, t: Table<K>) {
    WellFormed(t) && Aligned(t) && HashesMatch(hash, t) && Reachable(t) && DistinctKeys(t)
  }

  /** At least one slot is EMPTY, so that every probe terminates. */
  predicate HasEmpty<K>(t: Table<K>) {
    exists i | 0 <= i < |t.keys| :: t.keys[i].Empty?
  }

  predicate NoDummy<K>(t: Table<K>) {
    forall i | 0 <= i < |t.keys| :: !t.keys[i].Dummy?
  }

  /** The keys stored in the first `j` slots. */
  ghost function KeysBelow<K>(t: Table<K>, j: nat): set<K> {
    set i | 0 <= i < j && i < |t.keys| && t.keys[i].Key? :: t.keys[i].key
  }

  /** The keys the table holds. */
  ghost function LiveKeys<K>(t: Table<K>): set<K> {
    KeysBelow(t, |t.keys|)
  }

  /** The (hash code, key) pairs stored in the first `j` slots. */
  function PairsBelow<K(==)>(t: Table<K>, j: nat): multiset<(HashCode, K)>
    requires WellFormed(t) && j <= |t.keys|
  {
    if j == 0 then multiset{}
    else
      var here := if t.keys[j - 1].Key? then multiset{(t.hashCodes[j - 1].value, t.keys[j - 1].key)} else multiset{};
      PairsBelow(t, j - 1) + here
  }

  function LivePairs<K(==)>(t: Table<K>): multiset<(HashCode, K)>
    requires WellFormed(t)
  {
    PairsBelow(t, |t.keys|)
  }

  /** The number of slots whose key is not EMPTY. */
  function CountOccupied<K>(keys: seq<KeyCell<K>>): (c: nat)
    ensures c <= |keys|
  {
    if keys == [] then 0
    else CountOccupied(keys[..|keys| - 1]) + (if keys[|keys| - 1].Empty? then 0 else 1)
  }

  function EmptyTable<K>(n: nat): (t: Table<K>)
    ensures WellFormed(t) && |t.keys| == n
  {
    Table(seq(n, _ => None), seq(n, _ => Empty))
  }

  /** Slot `i` receives hash code `h` and key cell `c`. */
  function Write<K>(t: Table<K>, i: nat, h: HashCode, c: KeyCell<K>): (r: Table<K>)
    requires i < |t.keys| == |t.hashCodes|
    ensures |r.keys| == |r.hashCodes| == |t.keys|
    ensures WellFormed(t) ==> WellFormed(r)
  {
    Table(t.hashCodes[i := Some(h)], t.keys[i := c])
  }

  /** A write changes slot `i` and nothing else. */
  lemma WriteFrame<K>(t: Table<K>, i: nat, h: HashCode, c: KeyCell<K>)
    requires i < |t.keys| == |t.hashCodes|
    ensures var r := Write(t, i, h, c);
      r.keys[i] == c && r.hashCodes[i] == Some(h) &&
      forall k | 0 <= k < |t.keys| && k != i :: r.keys[k] == t.keys[k] && r.hashCodes[k] == t.hashCodes[k]
  {
  }

  // ------------------------------------------------------------ counting

  lemma {:induction false} CountWrite<K>(keys: seq<KeyCell<K>>, i: nat, c: KeyCell<K>)
    requires i < |keys|
    ensures CountOccupied(keys[i := c]) ==
      CountOccupied(keys) - (if keys[i].Empty? then 0 else 1) + (if c.Empty? then 0 else 1)
  {
    var n := |keys|;
    var u := keys[i := c];
    if i == n - 1 {
      assert u[..n - 1] == keys[..n - 1];
    } else {
      assert u[..n - 1] == keys[..n - 1][i := c];
      CountWrite(keys[..n - 1], i, c);
    }
  }

  /** Fewer occupied slots than slots means some slot is EMPTY. */
  lemma {:induction false} FreeSlotExists<K>(keys: seq<KeyCell<K>>)
    requires CountOccupied(keys) < |keys|
    ensures exists i | 0 <= i < |keys| :: keys[i].Empty?
  {
    var n := |keys|;
    if !keys[n - 1].Empty? {
      FreeSlotExists(keys[..n - 1]);
      var i :| 0 <= i < n - 1 && keys[..n - 1][i].Empty?;
      assert keys[i].Empty?;
    }
  }

  lemma {:induction false} CountEmptyTable<K>(n: nat)
    ensures CountOccupied(EmptyTable<K>(n).keys) == 0
  {
    if n > 0 {
      assert EmptyTable<K>(n).keys[..n - 1] == EmptyTable<K>(n - 1).keys;
      CountEmptyTable<K>(n - 1);
    }
  }

  /** A table of EMPTY slots is valid, holds no key and has no slot occupied. */
  lemma EmptyTableValid<K>(hash: K -> HashCode, n: nat)
    ensures var e := EmptyTable<K>(n);
      Valid(hash, e) && CountOccupied(e.keys) == 0 && LiveKeys(e) == {} && NoDummy(e)
  {
    var e := EmptyTable<K>(n);
    CountEmptyTable<K>(n);
    assert forall j | 0 <= j < |e.keys| :: e.keys[j].Empty?;
  }

  /** Writing a pair into a slot without a key adds that pair to the stored pairs. */
  lemma {:induction false} PairsBelowWrite<K>(t: Table<K>, i: nat, h: HashCode, k: K, j: nat)
    requires WellFormed(t) && i < |t.keys| && !t.keys[i].Key? && j <= |t.keys|
    ensures PairsBelow(Write(t, i, h, Key(k)), j) ==
      PairsBelow(t, j) + (if i < j then multiset{(h, k)} else multiset{})
  {
    var r := Write(t, i, h, Key(k));
    if j > 0 {
      PairsBelowWrite(t, i, h, k, j - 1);
      if j - 1 == i {
        assert r.keys[j - 1] == Key(k) && r.hashCodes[j - 1] == Some(h);
      } else {
        assert r.keys[j - 1] == t.keys[j - 1] && r.hashCodes[j - 1] == t.hashCodes[j - 1];
      }
    }
  }

  /** How the stored keys change when only slot `i` changes. */
  lemma LiveKeysWrite<K>(t: Table<K>, r: Table<K>, i: nat)
    requires i < |t.keys| == |r.keys| && DistinctKeys(t)
    requires forall k | 0 <= k < |t.keys| && k != i :: r.keys[k] == t.keys[k]
    ensures LiveKeys(r) ==
      (LiveKeys(t) - (if t.keys[i].Key? then {t.keys[i].key} else {})) + (if r.keys[i].Key? then {r.keys[i].key} else {})
  {
    var removed: set<K> := if t.keys[i].Key? then {t.keys[i].key} else {};
    var added: set<K> := if r.keys[i].Key? then {r.keys[i].key} else {};
    forall x ensures x in LiveKeys(r) <==> x in (LiveKeys(t) - removed) + added {
      if x in LiveKeys(r) && x !in added {
        var j :| 0 <= j < |r.keys| && r.keys[j].Key? && r.keys[j].key == x;
        assert j != i && t.keys[j] == r.keys[j];
      }
      if x in LiveKeys(t) - removed {
        var j :| 0 <= j < |t.keys| && t.keys[j].Key? && t.keys[j].key == x;
        assert j != i && t.keys[j] == r.keys[j];
      }
      if x in added {
        assert r.keys[i].key in LiveKeys(r);
      }
    }
  }

  /** Writing into one slot keeps the keys distinct when the written key is
      either not stored yet or the one already in that slot. */
  lemma DistinctAfterWrite<K>(t: Table<K>, r: Table<K>, i: nat)
    requires i < |t.keys| == |r.keys| && DistinctKeys(t)
    requires forall k | 0 <= k < |t.keys| && k != i :: r.keys[k] == t.keys[k]
    requires r.keys[i].Key? ==> r.keys[i].key !in LiveKeys(t) || r.keys[i] == t.keys[i]
    ensures DistinctKeys(r)
  {
    forall a, b | 0 <= a < b < |r.keys| && r.keys[a].Key? && r.keys[b].Key?
      ensures r.keys[a].key != r.keys[b].key
    {
      if a == i {
        assert t.keys[b].key in LiveKeys(t);
      } else if b == i {
        assert t.keys[a].key in LiveKeys(t);
      }
    }
  }

  /** Writing a non-EMPTY key into one slot keeps every other stored key
      reachable; the written slot needs a clear path of its own. */
  lemma ReachableAfterWrite<K>(t: Table<K>, r: Table<K>, i: nat)
    requires WellFormed(t) && WellFormed(r) && Reachable(t)
    requires |r.keys| == |t.keys| && i < |t.keys| && !r.keys[i].Empty?
    requires forall k | 0 <= k < |t.keys| && k != i :: r.keys[k] == t.keys[k] && r.hashCodes[k] == t.hashCodes[k]
    requires r.keys[i].Key? ==> ClearPath(r, ComputeIdx(r.hashCodes[i].value, |r.keys|), i)
    ensures Reachable(r)
  {
    var n := |t.keys|;
    forall j | 0 <= j < n && r.keys[j].Key?
      ensures ClearPath(r, ComputeIdx(r.hashCodes[j].value, n), j)
    {
      if j != i {
        var s := ComputeIdx(t.hashCodes[j].value, n);
        assert ClearPath(t, s, j);
        forall d | 0 <= d < Dist(s, j, n) ensures !r.keys[Pos(s, d, n)].Empty? {
          assert !t.keys[Pos(s, d, n)].Empty?;
        }
      }
    }
  }

  // ------------------------------------------------------------ the probe loop

  /** The probe loop of insert, search and remove stops at an EMPTY slot or
      at the slot holding the same hash code and the same key. */
  predicate IsStop<K(==)>(t: Table<K>, i: nat, h: HashCode, key: K)
    requires i < |t.keys| && i < |t.hashCodes|
  {
    t.keys[i].Empty? || (t.hashCodes[i] == Some(h) && t.keys[i] == Key(key))
  }

  /** The first step, from step `d` on, at which the probe from `s` stops
      (the table size if it never does). */
  function StopStep<K(==)>(t: Table<K>, s: nat, h: HashCode, key: K, d: nat): (r: nat)
    requires |t.hashCodes| == |t.keys| && s < |t.keys| && d <= |t.keys|
    ensures d <= r <= |t.keys|
    decreases |t.keys| - d
  {
    if d == |t.keys| then d
    else if IsStop(t, Pos(s, d, |t.keys|), h, key) then d
    else StopStep(t, s, h, key, d + 1)
  }

  lemma {:induction false} StopStepIsFirst<K>(t: Table<K>, s: nat, h: HashCode, key: K, d: nat)
    requires |t.hashCodes| == |t.keys| && s < |t.keys| && d <= |t.keys|
    ensures var r := StopStep(t, s, h, key, d);
      (r < |t.keys| ==> IsStop(t, Pos(s, r, |t.keys|), h, key)) &&
      forall d' | d <= d' < r :: !IsStop(t, Pos(s, d', |t.keys|), h, key)
    decreases |t.keys| - d
  {
    if d < |t.keys| && !IsStop(t, Pos(s, d, |t.keys|), h, key) {
      StopStepIsFirst(t, s, h, key, d + 1);
    }
  }

  /** The slot where the probe for `key` (with hash code `h`) stops. */
  function ProbeEnd<K(==)>(t: Table<K>, h: HashCode, key: K): (i: nat)
    requires |t.hashCodes| == |t.keys| > 0
    ensures i < |t.keys|
  {
    var s := ComputeIdx(h, |t.keys|);
    Pos(s, StopStep(t, s, h, key, 0), |t.keys|)
  }

  /** The probe for `key` meets an EMPTY slot or the key within one lap;
      otherwise the probe loop of insert, search and remove never ends. */
  predicate StopsInLap<K(==)>(t: Table<K>, h: HashCode, key: K)
    requires |t.hashCodes| == |t.keys| > 0
  {
    StopStep(t, ComputeIdx(h, |t.keys|), h, key, 0) < |t.keys|
  }

  /** With an EMPTY slot somewhere, the probe stops within one lap. */
  lemma ProbeStops<K>(t: Table<K>, h: HashCode, key: K)
    requires WellFormed(t) && HasEmpty(t)
    ensures StopsInLap(t, h, key)
    ensures IsStop(t, ProbeEnd(t, h, key), h, key)
  {
    var n := |t.keys|;
    var s := ComputeIdx(h, n);
    var e :| 0 <= e < n && t.keys[e].Empty?;
    PosDist(s, e, n);
    StopStepIsFirst(t, s, h, key, 0);
  }

  /** On a valid table the probe for a stored key stops within one lap, even
      when no slot is EMPTY: it meets the key at the latest. */
  lemma PresentKeyStops<K>(hash: K -> HashCode, t: Table<K>, key: K)
    requires Valid(hash, t) && key in LiveKeys(t)
    ensures StopsInLap(t, hash(key), key)
  {
    var n := |t.keys|;
    var h := hash(key);
    var s := ComputeIdx(h, n);
    var j :| 0 <= j < n && t.keys[j].Key? && t.keys[j].key == key;
    assert t.hashCodes[j] == Some(h);
    PosDist(s, j, n);
    StopStepIsFirst(t, s, h, key, 0);
  }

  /** When the probe for a key stops within one lap, it ends on that key
      exactly when the table holds it, and on an EMPTY slot exactly when it
      does not. */
  lemma ProbeEndFindsKey<K>(hash: K -> HashCode, t: Table<K>, key: K)
    requires Valid(hash, t) && |t.keys| > 0 && StopsInLap(t, hash(key), key)
    ensures var i := ProbeEnd(t, hash(key), key);
      (t.keys[i] == Key(key) <==> key in LiveKeys(t)) &&
      (t.keys[i].Empty? <==> key !in LiveKeys(t))
  {
    var n := |t.keys|;
    var h := hash(key);
    var s := ComputeIdx(h, n);
    StopStepIsFirst(t, s, h, key, 0);
    var i := ProbeEnd(t, h, key);
    if t.keys[i] == Key(key) {
      assert key in LiveKeys(t);
    }
    if key in LiveKeys(t) {
      var j :| 0 <= j < n && t.keys[j].Key? && t.keys[j].key == key;
      assert t.hashCodes[j] == Some(h);
      assert ClearPath(t, s, j);
      PosDist(s, j, n);
      StopStepIsFirst(t, s, h, key, 0);
      var r := StopStep(t, s, h, key, 0);
      if r < Dist(s, j, n) {
        assert !t.keys[Pos(s, r, n)].Empty?;
      }
    }
  }

  // ------------------------------------------------------------ insert

  /** `insert`: the probe's final slot receives the hash code and the key. */
  function InsertSpec<K(==)>(t: Table<K>, h: HashCode, key: K): (r: Table<K>)
    requires |t.hashCodes| == |t.keys| > 0
    ensures |r.hashCodes| == |r.keys| == |t.keys|
  {
    Write(t, ProbeEnd(t, h, key), h, Key(key))
  }

  /** Inserting keeps the table valid and adds exactly the key.  A key already
      present is overwritten with itself (the table does not change); an
      absent key takes the first EMPTY slot of its probe, never a DUMMY one. */
  lemma InsertKeepsValid<K>(hash: K -> HashCode, t: Table<K>, key: K)
    requires Valid(hash, t) && HasEmpty(t)
    ensures t.keys[ProbeEnd(t, hash(key), key)] == (if key in LiveKeys(t) then Key(key) else Empty)
    ensures var r := InsertSpec(t, hash(key), key);
      Valid(hash, r) &&
      LiveKeys(r) == LiveKeys(t) + {key} &&
      (key in LiveKeys(t) ==> r == t) &&
      (key !in LiveKeys(t) ==> CountOccupied(r.keys) == CountOccupied(t.keys) + 1) &&
      (NoDummy(t) ==> NoDummy(r))
  {
    ProbeStops(t, hash(key), key);
    ProbeEndFindsKey(hash, t, key);
    if key in LiveKeys(t) {
      var i := ProbeEnd(t, hash(key), key);
      assert t.hashCodes[i] == Some(hash(key));
      assert InsertSpec(t, hash(key), key) == t;
    } else {
      InsertAbsent(hash, t, key);
    }
  }

  /** Inserting an absent key fills the EMPTY slot that ends its probe. */
  lemma InsertAbsent<K>(hash: K -> HashCode, t: Table<K>, key: K)
    requires Valid(hash, t) && HasEmpty(t)
    requires t.keys[ProbeEnd(t, hash(key), key)] == Empty && key !in LiveKeys(t)
    ensures var r := InsertSpec(t, hash(key), key);
      Valid(hash, r) &&
      LiveKeys(r) == LiveKeys(t) + {key} &&
      CountOccupied(r.keys) == CountOccupied(t.keys) + 1 &&
      (NoDummy(t) ==> NoDummy(r))
  {
    var n := |t.keys|;
    var h := hash(key);
    var s := ComputeIdx(h, n);
    var i := ProbeEnd(t, h, key);
    var r := InsertSpec(t, h, key);
    var d := StopStep(t, s, h, key, 0);
    ProbeStops(t, h, key);
    StopStepIsFirst(t, s, h, key, 0);
    DistPos(s, d, n);
    WriteFrame(t, i, h, Key(key));
    forall d' | 0 <= d' < Dist(s, i, n) ensures !r.keys[Pos(s, d', n)].Empty? {
      assert !IsStop(t, Pos(s, d', n), h, key);
    }
    ReachableAfterWrite(t, r, i);
    LiveKeysWrite(t, r, i);
    DistinctAfterWrite(t, r, i);
    CountWrite(t.keys, i, Key(key));
  }

  // ------------------------------------------------------------ search and remove

  /** `remove`: the key found by the probe is replaced by DUMMY; its hash code
      stays.  When the probe ends on an EMPTY slot nothing changes (and the
      operation reports KeyError). */
  function RemoveSpec<K(==)>(t: Table<K>, h: HashCode, key: K): (r: Table<K>)
    requires |t.hashCodes| == |t.keys| > 0
    ensures r.hashCodes == t.hashCodes && |r.keys| == |t.keys|
  {
    var i := ProbeEnd(t, h, key);
    if t.keys[i].Empty? then t else Table(t.hashCodes, t.keys[i := Dummy])
  }

  /** Removing keeps the table valid, keeps an EMPTY slot and the number of
      occupied slots, drops exactly the key, and changes no slot other than
      the one that held the key, which becomes DUMMY. */
  lemma RemoveKeepsValid<K>(hash: K -> HashCode, t: Table<K>, key: K)
    requires Valid(hash, t) && HasEmpty(t)
    ensures var r := RemoveSpec(t, hash(key), key);
      Valid(hash, r) && HasEmpty(r) &&
      LiveKeys(r) == LiveKeys(t) - {key} &&
      CountOccupied(r.keys) == CountOccupied(t.keys) &&
      (forall j | 0 <= j < |t.keys| && r.keys[j] != t.keys[j] :: t.keys[j] == Key(key) && r.keys[j] == Dummy) &&
      (key !in LiveKeys(t) ==> r == t)
  {
    var h := hash(key);
    ProbeStops(t, h, key);
    ProbeEndFindsKey(hash, t, key);
    var i := ProbeEnd(t, h, key);
    var r := RemoveSpec(t, h, key);
    if key in LiveKeys(t) {
      ReachableAfterWrite(t, r, i);
      LiveKeysWrite(t, r, i);
      CountWrite(t.keys, i, Dummy);
      var e :| 0 <= e < |t.keys| && t.keys[e].Empty?;
      assert r.keys[e].Empty?;
    }
  }

  /** After a removal the removed key is no longer found, and every other key
      is found exactly when it was there before. */
  lemma SearchAfterRemove<K>(hash: K -> HashCode, t: Table<K>, key: K, other: K)
    requires Valid(hash, t) && HasEmpty(t)
    ensures var r := RemoveSpec(t, hash(key), key);
      r.keys[ProbeEnd(r, hash(key), key)].Empty? &&
      (other != key ==> (r.keys[ProbeEnd(r, hash(other), other)] == Key(other) <==> other in LiveKeys(t)))
  {
    var r := RemoveSpec(t, hash(key), key);
    RemoveKeepsValid(hash, t, key);
    ProbeStops(r, hash(key), key);
    ProbeStops(r, hash(other), other);
    ProbeEndFindsKey(hash, r, key);
    ProbeEndFindsKey(hash, r, other);
  }

  // ------------------------------------------------------------ create_new

  /** Inserting the keys of `ks` one after another. */
  function InsertAll<K(==)>(hash: K -> HashCode, t: Table<K>, ks: seq<K>): (r: Table<K>)
    requires |t.hashCodes| == |t.keys| && (|ks| > 0 ==> |t.keys| > 0)
    ensures |r.hashCodes| == |r.keys| == |t.keys|
    decreases |ks|
  {
    if ks == [] then t
    else
      var last := ks[|ks| - 1];
      InsertSpec(InsertAll(hash, t, ks[..|ks| - 1]), hash(last), last)
  }

  /** Inserting one more key inserts it into the table built so far. */
  lemma InsertAllStep<K>(hash: K -> HashCode, t: Table<K>, ks: seq<K>, k: K)
    requires |t.hashCodes| == |t.keys| > 0
    ensures InsertAll(hash, t, ks + [k]) == InsertSpec(InsertAll(hash, t, ks), hash(k), k)
  {
    assert (ks + [k])[..|ks|] == ks;
  }

  /** Before the `i`-th insertion of `create_new` the table still has an EMPTY
      slot, and the insertion extends the keys inserted so far by one. */
  lemma CreateNewStep<K>(hash: K -> HashCode, fromKeys: seq<K>, i: nat)
    requires i < |fromKeys|
    ensures var e := EmptyTable<K>(2 * |fromKeys|);
      var t := InsertAll(hash, e, fromKeys[..i]);
      WellFormed(t) && HasEmpty(t) && StopsInLap(t, hash(fromKeys[i]), fromKeys[i]) &&
      InsertAll(hash, e, fromKeys[..i + 1]) == InsertSpec(t, hash(fromKeys[i]), fromKeys[i])
  {
    var e := EmptyTable<K>(2 * |fromKeys|);
    EmptyTableValid<K>(hash, 2 * |fromKeys|);
    InsertAllKeepsValid(hash, e, fromKeys[..i]);
    FreeSlotExists(InsertAll(hash, e, fromKeys[..i]).keys);
    ProbeStops(InsertAll(hash, e, fromKeys[..i]), hash(fromKeys[i]), fromKeys[i]);
    InsertAllStep(hash, e, fromKeys[..i], fromKeys[i]);
    assert fromKeys[..i + 1] == fromKeys[..i] + [fromKeys[i]];
  }

  /** `create_new`: twice as many slots as keys, then every key inserted in order. */
  function CreateNewSpec<K(==)>(hash: K -> HashCode, fromKeys: seq<K>): (r: Table<K>)
    ensures |r.hashCodes| == |r.keys| == 2 * |fromKeys|
  {
    InsertAll(hash, EmptyTable(2 * |fromKeys|), fromKeys)
  }

  lemma {:induction false} InsertAllKeepsValid<K>(hash: K -> HashCode, t: Table<K>, ks: seq<K>)
    requires Valid(hash, t) && CountOccupied(t.keys) + |ks| < |t.keys|
    ensures var r := InsertAll(hash, t, ks);
      Valid(hash, r) &&
      LiveKeys(r) == LiveKeys(t) + Elements(ks) &&
      CountOccupied(r.keys) <= CountOccupied(t.keys) + |ks| &&
      (NoDummy(t) ==> NoDummy(r))
    decreases |ks|
  {
    if ks != [] {
      var init := ks[..|ks| - 1];
      var last := ks[|ks| - 1];
      InsertAllKeepsValid(hash, t, init);
      var m := InsertAll(hash, t, init);
      assert InsertAll(hash, t, ks) == InsertSpec(m, hash(last), last);
      FreeSlotExists(m.keys);
      InsertKeepsValid(hash, m, last);
      ElementsSnoc(ks);
    }
  }

  /** The keys listed in `ks`. */
  ghost function Elements<K>(ks: seq<K>): set<K> {
    set k | k in ks
  }

  lemma ElementsSnoc<K>(ks: seq<K>)
    requires ks != []
    ensures Elements(ks) == Elements(ks[..|ks| - 1]) + {ks[|ks| - 1]}
  {
    assert ks == ks[..|ks| - 1] + [ks[|ks| - 1]];
  }

  /** `create_new` builds a valid table of twice the number of keys holding
      exactly those keys, with no DUMMY slot and (for a non-empty input) an
      EMPTY slot left. */
  lemma CreateNewCorrect<K>(hash: K -> HashCode, fromKeys: seq<K>)
    ensures var t := CreateNewSpec(hash, fromKeys);
      Valid(hash, t) && |t.keys| == 2 * |fromKeys| &&
      LiveKeys(t) == Elements(fromKeys) && NoDummy(t) &&
      (|fromKeys| > 0 ==> HasEmpty(t))
  {
    var e := EmptyTable<K>(2 * |fromKeys|);
    EmptyTableValid<K>(hash, 2 * |fromKeys|);
    if fromKeys != [] {
      InsertAllKeepsValid(hash, e, fromKeys);
      FreeSlotExists(CreateNewSpec(hash, fromKeys).keys);
    }
  }

  // ------------------------------------------------------------ resize

  /** The first step, from step `d` on, at which the probe from `s` meets an
      EMPTY slot (the table size if it never does). */
  function FreeStep<K>(t: Table<K>, s: nat, d: nat): (r: nat)
    requires s < |t.keys| && d <= |t.keys|
    ensures d <= r <= |t.keys|
    decreases |t.keys| - d
  {
    if d == |t.keys| then d
    else if t.keys[Pos(s, d, |t.keys|)].Empty? then d
    else FreeStep(t, s, d + 1)
  }

  lemma {:induction false} FreeStepIsFirst<K>(t: Table<K>, s: nat, d: nat)
    requires s < |t.keys| && d <= |t.keys|
    ensures var r := FreeStep(t, s, d);
      (r < |t.keys| ==> t.keys[Pos(s, r, |t.keys|)].Empty?) &&
      forall d' | d <= d' < r :: !t.keys[Pos(s, d', |t.keys|)].Empty?
    decreases |t.keys| - d
  {
    if d < |t.keys| && !t.keys[Pos(s, d, |t.keys|)].Empty? {
      FreeStepIsFirst(t, s, d + 1);
    }
  }

  lemma FreeStepFinds<K>(t: Table<K>, s: nat)
    requires s < |t.keys| && HasEmpty(t)
    ensures FreeStep(t, s, 0) < |t.keys|
  {
    var n := |t.keys|;
    var e :| 0 <= e < n && t.keys[e].Empty?;
    PosDist(s, e, n);
    FreeStepIsFirst(t, s, 0);
  }

  /** Resize's inner step: the pair goes into the first EMPTY slot probed from
      the slot its hash code selects; keys are not compared. */
  function Place<K>(t: Table<K>, h: HashCode, c: KeyCell<K>): (r: Table<K>)
    requires |t.hashCodes| == |t.keys| > 0
    ensures |r.hashCodes| == |r.keys| == |t.keys|
    ensures WellFormed(t) ==> WellFormed(r)
  {
    Write(t, PlaceIdx(t, h), h, c)
  }

  /** The slot `Place` writes. */
  function PlaceIdx<K>(t: Table<K>, h: HashCode): (i: nat)
    requires |t.keys| > 0
    ensures i < |t.keys|
  {
    var s := ComputeIdx(h, |t.keys|);
    Pos(s, FreeStep(t, s, 0), |t.keys|)
  }

  /** Placing a key into a table with an EMPTY slot fills the first EMPTY slot
      of its probe and keeps the table aligned, free of DUMMY and reachable. */
  lemma PlaceKeeps<K>(m: Table<K>, h: HashCode, k: K)
    requires WellFormed(m) && Aligned(m) && NoDummy(m) && Reachable(m) && HasEmpty(m)
    ensures m.keys[PlaceIdx(m, h)].Empty?
    ensures var r := Place(m, h, Key(k));
      WellFormed(r) && Aligned(r) && NoDummy(r) && Reachable(r) &&
      CountOccupied(r.keys) == CountOccupied(m.keys) + 1
  {
    var n := |m.keys|;
    var s := ComputeIdx(h, n);
    FreeStepFinds(m, s);
    FreeStepIsFirst(m, s, 0);
    var d := FreeStep(m, s, 0);
    var i := Pos(s, d, n);
    var r := Place(m, h, Key(k));
    DistPos(s, d, n);
    forall d' | 0 <= d' < Dist(s, i, n) ensures !r.keys[Pos(s, d', n)].Empty? {
      assert !m.keys[Pos(s, d', n)].Empty?;
    }
    ReachableAfterWrite(m, r, i);
    CountWrite(m.keys, i, Key(k));
  }

  /** The new table after the first `j` slots of `t` have been copied over. */
  function ReinsertBelow<K>(t: Table<K>, j: nat): (r: Table<K>)
    requires WellFormed(t) && j <= |t.keys|
    ensures WellFormed(r) && |r.keys| == 2 * |t.keys|
  {
    if j == 0 then EmptyTable(2 * |t.keys|)
    else
      var r := ReinsertBelow(t, j - 1);
      if t.keys[j - 1].Key? then Place(r, t.hashCodes[j - 1].value, t.keys[j - 1]) else r
  }

  /** `resize`: a table of twice the size holding the live pairs of `t`. */
  function ResizeSpec<K>(t: Table<K>): (r: Table<K>)
    requires WellFormed(t)
    ensures |r.hashCodes| == |r.keys| == 2 * |t.keys|
  {
    ReinsertBelow(t, |t.keys|)
  }

  lemma {:induction false} ReinsertBelowShape<K>(t: Table<K>, j: nat)
    requires WellFormed(t) && j <= |t.keys|
    ensures var r := ReinsertBelow(t, j);
      WellFormed(r) && Aligned(r) && NoDummy(r) && Reachable(r) && CountOccupied(r.keys) <= j
  {
    var n := 2 * |t.keys|;
    if j == 0 {
      CountEmptyTable<K>(n);
    } else {
      ReinsertBelowShape(t, j - 1);
      var m := ReinsertBelow(t, j - 1);
      if t.keys[j - 1].Key? {
        FreeSlotExists(m.keys);
        PlaceKeeps(m, t.hashCodes[j - 1].value, t.keys[j - 1].key);
      }
    }
  }

  lemma {:induction false} ReinsertBelowPairs<K>(t: Table<K>, j: nat)
    requires WellFormed(t) && j <= |t.keys|
    ensures var r := ReinsertBelow(t, j); PairsBelow(r, |r.keys|) == PairsBelow(t, j)
  {
    var n := 2 * |t.keys|;
    if j == 0 {
      EmptyPairs<K>(n, n);
    } else {
      ReinsertBelowPairs(t, j - 1);
      var m := ReinsertBelow(t, j - 1);
      if t.keys[j - 1].Key? {
        var h := t.hashCodes[j - 1].value;
        ReinsertBelowShape(t, j - 1);
        FreeSlotExists(m.keys);
        PlaceKeeps(m, h, t.keys[j - 1].key);
        PairsBelowWrite(m, PlaceIdx(m, h), h, t.keys[j - 1].key, n);
      }
    }
  }

  lemma {:induction false} ReinsertBelowKeys<K>(t: Table<K>, j: nat)
    requires WellFormed(t) && j <= |t.keys|
    ensures LiveKeys(ReinsertBelow(t, j)) == KeysBelow(t, j)
  {
    var n := 2 * |t.keys|;
    if j == 0 {
      assert LiveKeys(EmptyTable<K>(n)) == {};
    } else {
      ReinsertBelowKeys(t, j - 1);
      var m := ReinsertBelow(t, j - 1);
      if t.keys[j - 1].Key? {
        var h := t.hashCodes[j - 1].value;
        var k := t.keys[j - 1].key;
        ReinsertBelowShape(t, j - 1);
        FreeSlotExists(m.keys);
        PlaceKeeps(m, h, k);
        LiveKeysWriteEmpty(m, Place(m, h, Key(k)), PlaceIdx(m, h));
        assert KeysBelow(t, j) == KeysBelow(t, j - 1) + {k};
      } else {
        assert KeysBelow(t, j) == KeysBelow(t, j - 1);
      }
    }
  }

  lemma {:induction false} ReinsertBelowHashes<K>(hash: K -> HashCode, t: Table<K>, j: nat)
    requires WellFormed(t) && j <= |t.keys| && HashesMatch(hash, t)
    ensures HashesMatch(hash, ReinsertBelow(t, j))
  {
    if j > 0 {
      ReinsertBelowHashes(hash, t, j - 1);
      var m := ReinsertBelow(t, j - 1);
      if t.keys[j - 1].Key? {
        WriteFrame(m, PlaceIdx(m, t.hashCodes[j - 1].value), t.hashCodes[j - 1].value, t.keys[j - 1]);
      }
    }
  }

  lemma {:induction false} ReinsertBelowDistinct<K>(t: Table<K>, j: nat)
    requires WellFormed(t) && j <= |t.keys| && DistinctKeys(t)
    ensures DistinctKeys(ReinsertBelow(t, j))
  {
    if j > 0 {
      ReinsertBelowDistinct(t, j - 1);
      var m := ReinsertBelow(t, j - 1);
      if t.keys[j - 1].Key? {
        var h := t.hashCodes[j - 1].value;
        var k := t.keys[j - 1].key;
        ReinsertBelowKeys(t, j - 1);
        assert k !in KeysBelow(t, j - 1);
        var i := PlaceIdx(m, h);
        WriteFrame(m, i, h, Key(k));
        DistinctAfterWrite(m, Place(m, h, Key(k)), i);
      }
    }
  }

  /** Writing a key into an EMPTY slot adds it to the stored keys. */
  lemma LiveKeysWriteEmpty<K>(t: Table<K>, r: Table<K>, i: nat)
    requires i < |t.keys| == |r.keys| && t.keys[i].Empty? && r.keys[i].Key?
    requires forall k | 0 <= k < |t.keys| && k != i :: r.keys[k] == t.keys[k]
    ensures LiveKeys(r) == LiveKeys(t) + {r.keys[i].key}
  {
    forall x ensures x in LiveKeys(r) <==> x in LiveKeys(t) + {r.keys[i].key} {
      if x in LiveKeys(r) && x != r.keys[i].key {
        var j :| 0 <= j < |r.keys| && r.keys[j].Key? && r.keys[j].key == x;
        assert t.keys[j] == r.keys[j];
      }
      if x in LiveKeys(t) {
        var j :| 0 <= j < |t.keys| && t.keys[j].Key? && t.keys[j].key == x;
        assert t.keys[j] == r.keys[j];
      }
    }
  }

  lemma {:induction false} EmptyPairs<K>(n: nat, j: nat)
    requires j <= n
    ensures PairsBelow(EmptyTable<K>(n), j) == multiset{}
  {
    if j > 0 {
      EmptyPairs<K>(n, j - 1);
    }
  }

  /** `resize` doubles the size, keeps every live (hash code, key) pair and
      nothing else, drops every DUMMY, leaves an EMPTY slot, keeps every key
      reachable, and turns a valid table into a valid table. */
  lemma ResizeCorrect<K>(hash: K -> HashCode, t: Table<K>)
    requires WellFormed(t)
    ensures var r := ResizeSpec(t);
      |r.keys| == 2 * |t.keys| && WellFormed(r) && Aligned(r) && Reachable(r) && NoDummy(r) &&
      LivePairs(r) == LivePairs(t) && LiveKeys(r) == LiveKeys(t) &&
      (|t.keys| > 0 ==> HasEmpty(r)) &&
      (Valid(hash, t) ==> Valid(hash, r))
  {
    ReinsertBelowShape(t, |t.keys|);
    ReinsertBelowPairs(t, |t.keys|);
    ReinsertBelowKeys(t, |t.keys|);
    if Valid(hash, t) {
      ReinsertBelowHashes(hash, t, |t.keys|);
      ReinsertBelowDistinct(t, |t.keys|);
    }
    if |t.keys| > 0 {
      FreeSlotExists(ResizeSpec(t).keys);
    }
  }

  // ------------------------------------------------------------ the methods

  /** The shared probe loop of `create_new`, `insert`, `has_key` and `remove`.
      The hash codes are compared before the keys: every slot whose key is
      compared (`keyCompares`) holds the searched hash code. */
  method Probe<K(==)>(hashCodes: array<Option<HashCode>>, keys: array<KeyCell<K>>, h: HashCode, key: K)
    returns (idx: nat, ghost keyCompares: seq<nat>)
    requires WellFormed(Table(hashCodes[..], keys[..])) && keys.Length > 0
    requires StopsInLap(Table(hashCodes[..], keys[..]), h, key)
    ensures idx == ProbeEnd(Table(hashCodes[..], keys[..]), h, key)
    ensures idx < keys.Length && (keys[idx].Empty? || (hashCodes[idx] == Some(h) && keys[idx] == Key(key)))
    ensures forall i | i in keyCompares :: i < hashCodes.Length && hashCodes[i] == Some(h)
  {
    ghost var t := Table(hashCodes[..], keys[..]);
    var n := keys.Length;
    var s := ComputeIdx(h, n);
    StopStepIsFirst(t, s, h, key, 0);
    ghost var stop := StopStep(t, s, h, key, 0);
    ghost var d := 0;
    ModUnique(s, n, 0, s);
    idx := s;
    keyCompares := [];
    while !keys[idx].Empty?
      invariant d <= stop
      invariant idx == Pos(s, d, n)
      invariant forall i | i in keyCompares :: i < n && hashCodes[i] == Some(h)
      decreases stop - d
    {
      assert t.keys[idx] == keys[idx] && t.hashCodes[idx] == hashCodes[idx];
      if hashCodes[idx].value == h {
        keyCompares := keyCompares + [idx];
        if keys[idx] == Key(key) {
          break;
        }
      }
      assert !IsStop(t, Pos(s, d, n), h, key);
      PosNext(s, d, n);
      idx := (idx + 1) % n;
      d := d + 1;
    }
    assert IsStop(t, Pos(s, d, n), h, key);
  }

  /** `has_key` (search mode of the shared remove/search routine). */
  method HasKey<K(==)>(hash: K -> HashCode, hashCodes: array<Option<HashCode>>, keys: array<KeyCell<K>>, key: K)
    returns (result: bool)
    requires WellFormed(Table(hashCodes[..], keys[..])) && keys.Length > 0
    requires StopsInLap(Table(hashCodes[..], keys[..]), hash(key), key)
    ensures result <==> keys[ProbeEnd(Table(hashCodes[..], keys[..]), hash(key), key)] == Key(key)
    ensures Valid(hash, Table(hashCodes[..], keys[..])) ==> (result <==> key in LiveKeys(Table(hashCodes[..], keys[..])))
  {
    ghost var keyCompares;
    var idx;
    idx, keyCompares := Probe(hashCodes, keys, hash(key), key);
    result := !keys[idx].Empty?;
    if Valid(hash, Table(hashCodes[..], keys[..])) {
      ProbeEndFindsKey(hash, Table(hashCodes[..], keys[..]), key);
    }
  }

  /** `remove` (remove mode of the shared remove/search routine); `isException`
      reports the KeyError raised when the probe ends on an EMPTY slot. */
  method Remove<K(==)>(hash: K -> HashCode, hashCodes: array<Option<HashCode>>, keys: array<KeyCell<K>>, key: K)
    returns (isException: bool)
    requires WellFormed(Table(hashCodes[..], keys[..])) && keys.Length > 0
    requires StopsInLap(Table(hashCodes[..], keys[..]), hash(key), key)
    modifies keys
    ensures Table(hashCodes[..], keys[..]) == RemoveSpec(old(Table(hashCodes[..], keys[..])), hash(key), key)
    ensures isException <==> old(keys[ProbeEnd(Table(hashCodes[..], keys[..]), hash(key), key)]).Empty?
    ensures Valid(hash, old(Table(hashCodes[..], keys[..]))) ==>
      (isException <==> key !in LiveKeys(old(Table(hashCodes[..], keys[..]))))
  {
    ghost var t := Table(hashCodes[..], keys[..]);
    ghost var keyCompares;
    var idx;
    idx, keyCompares := Probe(hashCodes, keys, hash(key), key);
    if Valid(hash, t) {
      ProbeEndFindsKey(hash, t, key);
    }
    if keys[idx].Empty? {
      isException := true;
    } else {
      keys[idx] := Dummy;
      isException := false;
    }
  }

  /** `insert`. */
  method Insert<K(==)>(hash: K -> HashCode, hashCodes: array<Option<HashCode>>, keys: array<KeyCell<K>>, key: K)
    requires WellFormed(Table(hashCodes[..], keys[..])) && keys.Length > 0
    requires StopsInLap(Table(hashCodes[..], keys[..]), hash(key), key)
    modifies hashCodes, keys
    ensures Table(hashCodes[..], keys[..]) == InsertSpec(old(Table(hashCodes[..], keys[..])), hash(key), key)
  {
    var h := hash(key);
    ghost var keyCompares;
    var idx;
    idx, keyCompares := Probe(hashCodes, keys, h, key);
    hashCodes[idx] := Some(h);
    keys[idx] := Key(key);
  }

  /** `create_new`. */
  method CreateNew<K(==)>(hash: K -> HashCode, fromKeys: seq<K>)
    returns (hashCodes: array<Option<HashCode>>, keys: array<KeyCell<K>>)
    ensures fresh(hashCodes) && fresh(keys)
    ensures Table(hashCodes[..], keys[..]) == CreateNewSpec(hash, fromKeys)
  {
    var size := 2 * |fromKeys|;
    hashCodes := new Option<HashCode>[size](_ => None);
    keys := new KeyCell<K>[size](_ => Empty);
    ghost var e := EmptyTable<K>(size);
    assert Table(hashCodes[..], keys[..]) == e;
    for i := 0 to |fromKeys|
      invariant Table(hashCodes[..], keys[..]) == InsertAll(hash, e, fromKeys[..i])
    {
      CreateNewStep(hash, fromKeys, i);
      Insert(hash, hashCodes, keys, fromKeys[i]);
    }
    assert fromKeys[..|fromKeys|] == fromKeys;
  }

  /** The body of `resize`'s loop for one live pair: probe linearly from the
      slot the hash code selects in the new arrays, without comparing keys,
      to the first EMPTY slot, and store the pair there. */
  method PlaceInto<K>(newHashCodes: array<Option<HashCode>>, newKeys: array<KeyCell<K>>, h: HashCode, c: KeyCell<K>)
    requires newHashCodes.Length == newKeys.Length > 0
    requires HasEmpty(Table(newHashCodes[..], newKeys[..]))
    modifies newHashCodes, newKeys
    ensures Table(newHashCodes[..], newKeys[..]) == Place(old(Table(newHashCodes[..], newKeys[..])), h, c)
  {
    ghost var m := Table(newHashCodes[..], newKeys[..]);
    var n := newKeys.Length;
    var s := ComputeIdx(h, n);
    FreeStepFinds(m, s);
    FreeStepIsFirst(m, s, 0);
    ghost var free := FreeStep(m, s, 0);
    ghost var d := 0;
    ModUnique(s, n, 0, s);
    var idx := s;
    while !newKeys[idx].Empty?
      invariant newHashCodes[..] == m.hashCodes && newKeys[..] == m.keys
      invariant d <= free
      invariant idx == Pos(s, d, n)
      decreases free - d
    {
      assert !m.keys[Pos(s, d, n)].Empty?;
      PosNext(s, d, n);
      idx := (idx + 1) % n;
      d := d + 1;
    }
    assert idx == PlaceIdx(m, h);
    newHashCodes[idx] := Some(h);
    newKeys[idx] := c;
    assert newHashCodes[..] == m.hashCodes[idx := Some(h)];
    assert newKeys[..] == m.keys[idx := c];
  }

  /** `resize`. */
  method Resize<K(==)>(hashCodes: array<Option<HashCode>>, keys: array<KeyCell<K>>)
    returns (newHashCodes: array<Option<HashCode>>, newKeys: array<KeyCell<K>>)
    requires WellFormed(Table(hashCodes[..], keys[..]))
    ensures fresh(newHashCodes) && fresh(newKeys)
    ensures Table(newHashCodes[..], newKeys[..]) == ResizeSpec(Table(hashCodes[..], keys[..]))
  {
    ghost var t := Table(hashCodes[..], keys[..]);
    var n := 2 * keys.Length;
    newHashCodes := new Option<HashCode>[n](_ => None);
    newKeys := new KeyCell<K>[n](_ => Empty);
    assert Table(newHashCodes[..], newKeys[..]) == ReinsertBelow(t, 0);
    for oldIdx := 0 to keys.Length
      invariant Table(newHashCodes[..], newKeys[..]) == ReinsertBelow(t, oldIdx)
    {
      if keys[oldIdx].Empty? || keys[oldIdx].Dummy? {
        continue;
      }
      ReinsertBelowShape(t, oldIdx);
      FreeSlotExists(newKeys[..]);
      PlaceInto(newHashCodes, newKeys, hashCodes[oldIdx].value, keys[oldIdx]);
    }
  }
}
