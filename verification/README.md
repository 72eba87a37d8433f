# Inside Python dict — the hash-table engine, verified

This project models the two hash-table engines of the "Inside Python dict"
explainer and proves what they promise.

* **Chapter 2** (`src/chapter2_hash_table_functions.js`) is a hash table
  stored as two index-aligned lists. `hash_codes` holds hash codes and `keys`
  holds keys. It uses open addressing with linear probing,
  `idx = (idx + 1) % len(keys)`. The operations are `create_new`, `insert`,
  `has_key`, `remove` (which leaves a DUMMY placeholder in `keys` and keeps
  the stale hash code) and `resize` (which doubles the size and drops DUMMY
  slots). Module `HashTableFunctions` writes each operation as a method over
  two arrays. Each method is proved equal to a specification function on
  `Table` values. Lemmas about those functions state the table invariant
  (`Valid`) and prove that every operation keeps it:
  * the arrays are aligned;
  * every key is stored under its own hash code, once;
  * every key is reachable from the slot its hash code selects without
    crossing an EMPTY slot.
* **Chapter 4** (`src/chapter4_real_python_dict.js`) is CPython 3.2's dict.
  * Its index primitives are `signedToUnsigned`, `computePerturb`, `nextIdx`
    and `perturbShift` (module `Perturbation`).
  * The number theory that makes the probe loops terminate is in module
    `FullPeriod`: on a power-of-two table, `idx -> (5 * idx + 1) % n` visits
    every slot within `n` steps.
  * The link generator `GenerateProbingLinks.run` is in module `ProbingLinks`.
  * The `Dict32` class and its `lookdict`, `__getitem__`, `__delitem__`,
    `__setitem__` and `resize` listings are in module `RealPythonDict`. That
    class changes `slots`, `used` and `fill` in place, and the
    `chapter4Extend` mixin is the `Prober` class.
  * Each Dict32 method is proved equal to a specification function in
    `Dict32Spec`: most to the function of the same name, `FindTarget` to
    `SetTarget`, and `FreeSlot` to the probe slot that `FreeStep` selects.
    Lemmas there prove two things:
    * every operation keeps the dict invariant. The size is a power of two.
      `used` and `fill` count exactly. An EMPTY slot remains. Every live key
      is stored once, under its hash code, where its probe finds it.
    * each operation acts on `Contents`, the mapping the dict represents, as
      a Python dict should.

`common.dfy` holds what both chapters share. That is the 64-bit hash code,
Python's `hash_code % size` for the starting slot, and the `KeyError` result.

## Model

| member | source | states |
|---|---|---|
| `HashCommon.ComputeIdx` | src/chapter2_hash_table_functions.js:30 | the starting slot is the residue of the hash code modulo the size in [0, size), Python's `%`, also for negative hash codes |
| `Perturbation.SignedToUnsigned` | src/chapter4_real_python_dict.js:37-43 | the unsigned perturb is below 2^64 and congruent to the hash code modulo 2^64 |
| `Perturbation.SignedToUnsignedCases` | src/chapter4_real_python_dict.js:37-43 | both branches: a non-negative hash code is returned as is, a negative one plus 2^64 |
| `Perturbation.ComputePerturb` | src/chapter4_real_python_dict.js:45-47 | the initial perturb is the hash code read as an unsigned 64-bit number |
| `Perturbation.NextIdx` | src/chapter4_real_python_dict.js:49-54 | the next slot is in range and is `5 * idx + 1 + perturb` reduced modulo the size |
| `Perturbation.PerturbShift` | src/chapter4_real_python_dict.js:56-58 | `perturb >>= 5` is floor division by 32 and strictly decreases a positive perturb |
| `Perturbation.ShiftedToZero` | src/chapter4_real_python_dict.js:56-58 | after as many shifts as `ShiftsToZero` counts, perturb is zero |
| `Perturbation.PerturbReachesZero` | src/chapter4_real_python_dict.js:56-58 | any perturb from a 64-bit hash code is zero after at most 13 shifts |
| `Perturbation.WalkStep` | src/chapter4_real_python_dict.js:69-74 | one more step of a probe applies `nextIdx` with the perturb reached so far, then shifts perturb |
| `Perturbation.WalkWithoutPerturb` | src/chapter4_real_python_dict.js:250-258 | with perturb zero the probe is the plain `5i+1` recurrence |
| `Perturbation.ProbeReaches` | src/chapter4_real_python_dict.js:162-168 | on a power-of-two table the perturbed probe meets every slot within `ShiftsToZero(perturb) + size` steps |
| `FullPeriod.IterateInjective` | src/chapter4_real_python_dict.js:250-258 | on a power-of-two table `5i+1` never revisits a slot within its first `n` steps |
| `FullPeriod.OrbitSize` | src/chapter4_real_python_dict.js:250-258 | the first `t <= n` steps of `5i+1` visit exactly `t` distinct slots |
| `FullPeriod.FullPeriodWitness` | src/chapter4_real_python_dict.js:250-258 | from any start, `5i+1` reaches every slot of a power-of-two table within `n` steps |
| `ProbingLinks.ParseAlgorithm` | src/chapter4_real_python_dict.js:306-314 | each of `i+1`, `5i+1`, `python` selects its recurrence exactly when the name is that string; any other name is unknown |
| `ProbingLinks.LinksAfter` | src/chapter4_real_python_dict.js:281-284 | there is one link list per slot and every link is a slot index |
| `ProbingLinks.VisitStep` | src/chapter4_real_python_dict.js:305-321 | the slot after step `t` is `nextIdx` of the current one for `python` and the successor for the other two |
| `ProbingLinks.VisitReaches` | src/chapter4_real_python_dict.js:298-302 | every slot is visited within the bound; `i+1` works on any size, `5i+1` and `python` on a power-of-two size |
| `ProbingLinks.VisitInjective` | src/chapter4_real_python_dict.js:308-311 | `i+1` and `5i+1` visit a different slot at each of their first `n` steps |
| `ProbingLinks.VisitedWitness` | src/chapter4_real_python_dict.js:303 | a slot is in the visited set exactly when some earlier step visited it |
| `ProbingLinks.VisitedSize` | src/chapter4_real_python_dict.js:300-303 | the visited set never holds more slots than the table has |
| `ProbingLinks.AllVisited` | src/chapter4_real_python_dict.js:298-302 | within the bound the visited set becomes all `n` slots, so the loop's exit test is reached |
| `ProbingLinks.VisitedCount` | src/chapter4_real_python_dict.js:300-311 | the unperturbed recurrences add one new slot per step during the first `n` steps |
| `ProbingLinks.LinksOfVisited` | src/chapter4_real_python_dict.js:303-315 | a slot has links exactly when it has been visited |
| `ProbingLinks.OneLinkEach` | src/chapter4_real_python_dict.js:315 | for `i+1` and `5i+1`, during the first `n` steps each visited slot holds exactly one link, to its successor |
| `ProbingLinks.ExactlyOneLinkPerSlot` | src/chapter4_real_python_dict.js:298-322 | for `i+1` and `5i+1` started with perturb 0, the visited set is full after `n` steps and not before, and every slot then holds one link, to its successor |
| `ProbingLinks.PerturbIgnored` | src/chapter4_real_python_dict.js:308-311 | `i+1` and `5i+1` do not use the perturb: their visited sets and links are those of the walk started with perturb 0 |
| `ProbingLinks.StopsAfterN` | src/chapter4_real_python_dict.js:298-322 | for `i+1` and `5i+1`, whatever the perturb, the first step count at which every slot is visited is `n`, and every slot then holds one link, to its successor |
| `ProbingLinks.NextSlot` | src/chapter4_real_python_dict.js:306-311 | the slot stepped to is in range |
| `ProbingLinks.Advance` | src/chapter4_real_python_dict.js:303-321 | one loop iteration takes the generator's state from step `t` to step `t + 1` |
| `ProbingLinks.StaysOpen` | src/chapter4_real_python_dict.js:298-302 | while a slot is unvisited the loop is still within its bound |
| `ProbingLinks.Run` | src/chapter4_real_python_dict.js:277-325 | no slots give no link lists; an unknown name gives the error; otherwise the result holds the links of the steps taken, stopping at the first step where every slot is visited; for `i+1` and `5i+1` that is exactly `n` steps and every slot holds one link, to its successor |
| `HashTableFunctions.PosNext` | src/chapter2_hash_table_functions.js:99 | `(idx + 1) % n` is the next linear-probing position |
| `HashTableFunctions.PosDist` | src/chapter2_hash_table_functions.js:83-101 | every slot is reached from any start within `n` linear steps |
| `HashTableFunctions.EmptyTable` | src/chapter2_hash_table_functions.js:63-71 | the fresh lists are aligned and of the requested size |
| `HashTableFunctions.EmptyTableValid` | src/chapter2_hash_table_functions.js:63-71 | a table of EMPTY slots is valid, holds no key, has no slot occupied and no DUMMY |
| `HashTableFunctions.Write` | src/chapter2_hash_table_functions.js:103-104 | writing a slot keeps both lists aligned and their size |
| `HashTableFunctions.WriteFrame` | src/chapter2_hash_table_functions.js:103-104 | a write changes its slot in both lists and no other slot |
| `HashTableFunctions.CountWrite` | src/chapter2_hash_table_functions.js:103-104 | the count of occupied slots changes only by what the written slot gains or loses |
| `HashTableFunctions.FreeSlotExists` | src/chapter2_hash_table_functions.js:63-72 | fewer occupied slots than slots means an EMPTY slot exists |
| `HashTableFunctions.CountEmptyTable` | src/chapter2_hash_table_functions.js:63-72 | a fresh table has no occupied slot |
| `HashTableFunctions.PairsBelowWrite` | src/chapter2_hash_table_functions.js:382-383 | writing a pair into a slot without a key adds exactly that pair |
| `HashTableFunctions.LiveKeysWrite` | src/chapter2_hash_table_functions.js:295 | when one slot changes, the stored keys lose that slot's old key and gain its new one, and nothing else changes |
| `HashTableFunctions.DistinctAfterWrite` | src/chapter2_hash_table_functions.js:491-492 | a one-slot write of a key not stored elsewhere keeps every key stored once |
| `HashTableFunctions.ReachableAfterWrite` | src/chapter2_hash_table_functions.js:491-492 | a one-slot write that fills no EMPTY slot on another key's path, and whose key has a clear path, keeps every key reachable |
| `HashTableFunctions.StopStep` | src/chapter2_hash_table_functions.js:473-490 | the probe's stopping step lies between the step it starts from and one full lap |
| `HashTableFunctions.StopStepIsFirst` | src/chapter2_hash_table_functions.js:473-490 | the probe stops at the first EMPTY slot or the first slot with the same hash code and key |
| `HashTableFunctions.ProbeEnd` | src/chapter2_hash_table_functions.js:473-490 | the probe ends on a slot of the table |
| `HashTableFunctions.ProbeStops` | src/chapter2_hash_table_functions.js:473-490 | with an EMPTY slot present the probe stops within one lap, on a stopping slot |
| `HashTableFunctions.PresentKeyStops` | src/chapter2_hash_table_functions.js:284-310 | on a valid table the probe for a stored key stops within one lap even when no slot is EMPTY |
| `HashTableFunctions.ProbeEndFindsKey` | src/chapter2_hash_table_functions.js:284-310 | on a valid table whose probe for the key stops within one lap, the probe ends on the key exactly when it is stored, and on an EMPTY slot exactly when it is not |
| `HashTableFunctions.Probe` | src/chapter2_hash_table_functions.js:83-101 | when the probe stops within one lap, the loop ends where the specification's probe ends, on a stopping slot, and compares keys only in slots with the same hash code |
| `HashTableFunctions.InsertSpec` | src/chapter2_hash_table_functions.js:461-495 | insertion keeps both lists aligned and their size |
| `HashTableFunctions.InsertKeepsValid` | src/chapter2_hash_table_functions.js:461-495 | insert keeps the table valid and adds exactly the key; a present key leaves the table unchanged; an absent key takes an EMPTY slot, never a DUMMY one, and adds one occupied slot |
| `HashTableFunctions.InsertAbsent` | src/chapter2_hash_table_functions.js:473-492 | an absent key is written into the EMPTY slot ending its probe, keeping the table valid |
| `HashTableFunctions.Insert` | src/chapter2_hash_table_functions.js:461-495 | the arrays afterwards are the specification's insertion |
| `HashTableFunctions.RemoveSpec` | src/chapter2_hash_table_functions.js:294-298 | remove never changes `hash_codes` or the size |
| `HashTableFunctions.RemoveKeepsValid` | src/chapter2_hash_table_functions.js:270-322 | remove keeps the table valid and an EMPTY slot present, drops exactly the key, and turns only the key's slot into DUMMY; an absent key changes nothing |
| `HashTableFunctions.SearchAfterRemove` | src/chapter2_hash_table_functions.js:270-322 | after remove the key is not found and every other key is found exactly when it was stored |
| `HashTableFunctions.HasKey` | src/chapter2_hash_table_functions.js:556-562 | `has_key` answers whether the probe ends on the key, which on a valid table is whether the key is stored; it requires only that the probe stop within one lap, as the source's loop needs |
| `HashTableFunctions.Remove` | src/chapter2_hash_table_functions.js:564-570 | the arrays afterwards are the specification's removal; the KeyError is reported exactly when the key is not stored; it requires only that the probe stop within one lap |
| `HashTableFunctions.InsertAll` | src/chapter2_hash_table_functions.js:73-106 | inserting a sequence of keys keeps both lists aligned and their size |
| `HashTableFunctions.InsertAllStep` | src/chapter2_hash_table_functions.js:73-106 | inserting one more key inserts it into the table built so far |
| `HashTableFunctions.CreateNewStep` | src/chapter2_hash_table_functions.js:73-106 | before each insertion of `create_new` the table is aligned and still has an EMPTY slot |
| `HashTableFunctions.InsertAllKeepsValid` | src/chapter2_hash_table_functions.js:73-106 | inserting keys one by one keeps the table valid and adds exactly those keys |
| `HashTableFunctions.ElementsSnoc` | src/chapter2_hash_table_functions.js:73 | the keys of a list are those of its prefix plus its last key |
| `HashTableFunctions.CreateNewSpec` | src/chapter2_hash_table_functions.js:56-113 | `create_new` allocates aligned lists of twice the number of keys; what they hold is proved in `CreateNewCorrect` |
| `HashTableFunctions.CreateNewCorrect` | src/chapter2_hash_table_functions.js:56-113 | `create_new` builds a valid table of twice the number of keys that holds exactly those keys and no DUMMY, with an EMPTY slot left when keys were given |
| `HashTableFunctions.CreateNew` | src/chapter2_hash_table_functions.js:56-113 | the fresh arrays are the specification's `create_new` |
| `HashTableFunctions.FreeStep` | src/chapter2_hash_table_functions.js:371-380 | resize's inner probe stops between the step it starts from and one full lap |
| `HashTableFunctions.FreeStepIsFirst` | src/chapter2_hash_table_functions.js:371-380 | resize's inner probe stops at the first EMPTY slot |
| `HashTableFunctions.FreeStepFinds` | src/chapter2_hash_table_functions.js:371-380 | with an EMPTY slot present that probe stops within one lap |
| `HashTableFunctions.Place` | src/chapter2_hash_table_functions.js:382-383 | placing a pair keeps both lists aligned and their size |
| `HashTableFunctions.PlaceIdx` | src/chapter2_hash_table_functions.js:368-380 | the slot chosen for a pair is a slot of the new table |
| `HashTableFunctions.PlaceKeeps` | src/chapter2_hash_table_functions.js:367-384 | a pair goes into the first EMPTY slot of its probe, keeping the new table aligned, free of DUMMY and reachable, with one more occupied slot |
| `HashTableFunctions.PlaceInto` | src/chapter2_hash_table_functions.js:367-384 | the new arrays afterwards are the specification's placement |
| `HashTableFunctions.ReinsertBelow` | src/chapter2_hash_table_functions.js:359-385 | after any number of old slots the new table is aligned and twice the old size |
| `HashTableFunctions.ReinsertBelowShape` | src/chapter2_hash_table_functions.js:359-385 | the new table stays aligned, DUMMY-free and reachable, with at most as many occupied slots as old slots copied |
| `HashTableFunctions.ReinsertBelowPairs` | src/chapter2_hash_table_functions.js:359-385 | the new table holds exactly the (hash code, key) pairs of the old slots copied so far |
| `HashTableFunctions.ReinsertBelowKeys` | src/chapter2_hash_table_functions.js:359-385 | the new table holds exactly the keys of the old slots copied so far |
| `HashTableFunctions.ReinsertBelowHashes` | src/chapter2_hash_table_functions.js:359-385 | copied keys keep their own hash codes |
| `HashTableFunctions.ReinsertBelowDistinct` | src/chapter2_hash_table_functions.js:359-385 | distinct old keys stay distinct in the new table |
| `HashTableFunctions.LiveKeysWriteEmpty` | src/chapter2_hash_table_functions.js:382-383 | writing a key into an EMPTY slot adds exactly that key |
| `HashTableFunctions.EmptyPairs` | src/chapter2_hash_table_functions.js:349-357 | a fresh table holds no pair |
| `HashTableFunctions.ResizeSpec` | src/chapter2_hash_table_functions.js:341-388 | `resize` yields aligned lists of twice the old size; what they hold is proved in `ResizeCorrect` |
| `HashTableFunctions.ResizeCorrect` | src/chapter2_hash_table_functions.js:341-388 | `resize` doubles the size, keeps exactly the live pairs and keys, drops every DUMMY, leaves an EMPTY slot, keeps every key reachable and a valid table valid |
| `HashTableFunctions.Resize` | src/chapter2_hash_table_functions.js:341-388 | the fresh arrays are the specification's `resize` |
| `Dict32Spec.ProbeAt` | src/chapter4_real_python_dict.js:112-123 | the slot probed after any number of steps is a slot of the table |
| `Dict32Spec.ProbeStep` | src/chapter4_real_python_dict.js:122-123 | one more probe step is `nextIdx` with the perturb shifted so far |
| `Dict32Spec.ProbeCovers` | src/chapter4_real_python_dict.js:162-168 | on a power-of-two table the probe meets every slot within its bound |
| `Dict32Spec.StopStep` | src/chapter4_real_python_dict.js:162-168 | lookdict's probe stops at or after the step it starts from, and never past the bound |
| `Dict32Spec.StopStepIsFirst` | src/chapter4_real_python_dict.js:162-168 | lookdict's probe stops at the first EMPTY slot or the first slot holding the key under its hash code |
| `Dict32Spec.StopStepFound` | src/chapter4_real_python_dict.js:162-168 | with an EMPTY slot present that probe stops before the bound |
| `Dict32Spec.StopStepIs` | src/chapter4_real_python_dict.js:162-168 | a step that is a stopping slot, with none before it, is the stopping step |
| `Dict32Spec.StopStepSame` | src/chapter4_real_python_dict.js:162-168 | tables that agree on which slots stop a probe agree on its stopping step |
| `Dict32Spec.FreeStep` | src/chapter4_real_python_dict.js:149-151 | resize's probe stops at or after the step it starts from, and never past the bound |
| `Dict32Spec.FreeStepIsFirst` | src/chapter4_real_python_dict.js:149-151 | resize's probe stops at the first EMPTY slot |
| `Dict32Spec.FreeStepFound` | src/chapter4_real_python_dict.js:149-151 | with an EMPTY slot present that probe stops before the bound |
| `Dict32Spec.FirstDummyBelow` | src/chapter4_real_python_dict.js:120-121 | the recycled step, when there is one, is a DUMMY slot of the probe before the given step |
| `Dict32Spec.FirstDummyBelowIsFirst` | src/chapter4_real_python_dict.js:120-121 | the recycled slot is the first DUMMY of the probe, and there is none when no DUMMY precedes the step |
| `Dict32Spec.LiveBelow` | src/chapter4_real_python_dict.js:127-131 | the live slots among the first `j` are at most `j` |
| `Dict32Spec.FilledBelow` | src/chapter4_real_python_dict.js:127-131 | the non-EMPTY slots among the first `j` are at least the live ones and at most `j` |
| `Dict32Spec.CountWrite` | src/chapter4_real_python_dict.js:127-133 | writing a slot changes `used` and `fill` counts by what that slot gains or loses |
| `Dict32Spec.EmptyExists` | src/chapter4_real_python_dict.js:134 | fewer filled slots than slots means an EMPTY slot exists |
| `Dict32Spec.NoDummyCounts` | src/chapter4_real_python_dict.js:144 | without DUMMY slots the filled slots are the live ones |
| `Dict32Spec.LiveBelowMonotone` | src/chapter4_real_python_dict.js:127-131 | the live count over a prefix never exceeds the count over a longer one |
| `Dict32Spec.EmptySlots` | src/chapter4_real_python_dict.js:143 | the fresh slot list has the requested size |
| `Dict32Spec.EmptySlotsCounts` | src/chapter4_real_python_dict.js:143 | fresh slots have no live and no filled slot |
| `Dict32Spec.CountersOrdered` | src/chapter4_real_python_dict.js:127-135 | on a valid dict `0 <= used <= fill < len(slots)` and an EMPTY slot exists |
| `Dict32Spec.ContentsAt` | src/chapter4_real_python_dict.js:178 | each live slot's key maps to that slot's value |
| `Dict32Spec.ContentsHas` | src/chapter4_real_python_dict.js:178 | every key of the mapping is held by a live slot with its value |
| `Dict32Spec.ContentsWriteAbsent` | src/chapter4_real_python_dict.js:133 | writing an absent key into a slot that is not live adds exactly that pair |
| `Dict32Spec.ContentsOverwrite` | src/chapter4_real_python_dict.js:133 | rewriting the key's own slot replaces only its value |
| `Dict32Spec.ContentsDelete` | src/chapter4_real_python_dict.js:185-187 | turning a live slot into DUMMY removes exactly its key |
| `Dict32Spec.WriteAbsentReachable` | src/chapter4_real_python_dict.js:125-133 | writing an absent key into the first non-live slot of its probe keeps every key reachable |
| `Dict32Spec.WriteKeepsFound` | src/chapter4_real_python_dict.js:125-133 | a write into another slot that does not stop a key's probe leaves that key found where it was |
| `Dict32Spec.RewriteReachable` | src/chapter4_real_python_dict.js:133 | overwriting a live slot with DUMMY or with the same key keeps every key reachable |
| `Dict32Spec.Lookdict` | src/chapter4_real_python_dict.js:157-172 | a found index holds the key under its hash code; the only failure is KeyError |
| `Dict32Spec.LookdictCorrect` | src/chapter4_real_python_dict.js:157-172 | on a valid dict lookdict succeeds exactly when the key is in the dict, on the slot holding it and its value |
| `Dict32Spec.GetItem` | src/chapter4_real_python_dict.js:174-179 | `d[key]` is the value of a live slot holding the key under its hash code; the only failure is KeyError |
| `Dict32Spec.GetItemCorrect` | src/chapter4_real_python_dict.js:174-179 | `d[key]` is the value the dict maps the key to, and KeyError when it maps none |
| `Dict32Spec.DelItem` | src/chapter4_real_python_dict.js:181-188 | the only failure is KeyError; otherwise the slot holding the key under its hash code becomes a DUMMY keeping that hash code, `used` drops by one and `fill` stays |
| `Dict32Spec.DelItemCorrect` | src/chapter4_real_python_dict.js:181-188 | deleting an absent key raises KeyError; deleting a present key keeps the dict valid, removes exactly that key, lowers `used` by one and keeps `fill` and the size |
| `Dict32Spec.DelThenGet` | src/chapter4_real_python_dict.js:181-188 | after `del d[key]` the key raises KeyError and every other key keeps its value |
| `Dict32Spec.Place` | src/chapter4_real_python_dict.js:147-153 | placing a slot keeps the table size |
| `Dict32Spec.ReinsertBelow` | src/chapter4_real_python_dict.js:143-153 | after any number of old slots the new table has the new size |
| `Dict32Spec.ContentsBelowStep` | src/chapter4_real_python_dict.js:145-146 | each old slot adds its pair to the contents copied so far when live, nothing otherwise |
| `Dict32Spec.PlaceAbsent` | src/chapter4_real_python_dict.js:147-153 | placing an absent key into the first EMPTY slot of its probe keeps the new table's invariant and adds that pair |
| `Dict32Spec.ReinsertStep` | src/chapter4_real_python_dict.js:145-153 | placing a live old slot extends the loop invariant by one slot |
| `Dict32Spec.ReinsertSkip` | src/chapter4_real_python_dict.js:146 | skipping an EMPTY or DUMMY old slot keeps the loop invariant |
| `Dict32Spec.ReinsertStart` | src/chapter4_real_python_dict.js:143-144 | the fresh table satisfies the loop invariant before the first old slot |
| `Dict32Spec.ReinsertKeeps` | src/chapter4_real_python_dict.js:145-153 | after any number of old slots the new table holds exactly their contents, reachable, under their own hash codes, without DUMMY, with as many filled slots as live old slots |
| `Dict32Spec.Resize` | src/chapter4_real_python_dict.js:139-155 | resize gives the new size, keeps `used` and sets `fill` to `used` |
| `Dict32Spec.ResizeCorrect` | src/chapter4_real_python_dict.js:139-155 | resize yields a valid dict of the new size with the same contents, the same `used`, `fill == used` and no DUMMY |
| `Dict32Spec.ReinsertNext` | src/chapter4_real_python_dict.js:145-153 | each loop step places a live slot into a table that still has an EMPTY slot, and skips the rest |
| `Dict32Spec.EmptyDictValid` | src/chapter4_real_python_dict.js:191-192 | a fresh power-of-two table is a valid, empty dict |
| `Dict32Spec.ResizeThenGet` | src/chapter4_real_python_dict.js:139-155 | resizing does not change what any key maps to |
| `Dict32Spec.SetTarget` | src/chapter4_real_python_dict.js:114-126 | the target is a slot of the table |
| `Dict32Spec.SetTargetChoice` | src/chapter4_real_python_dict.js:114-126 | the target is the key's slot when the key is present, and otherwise the first slot of its probe that is not live |
| `Dict32Spec.Written` | src/chapter4_real_python_dict.js:127-133 | writing the target keeps the size |
| `Dict32Spec.WrittenCorrect` | src/chapter4_real_python_dict.js:114-133 | writing the target keeps the keys reachable and the counters exact, maps the key to the value, and raises `used` exactly when the key was absent |
| `Dict32Spec.SetItem` | src/chapter4_real_python_dict.js:105-137 | after `__setitem__`, whether or not it resized, `fill * 3 < size * 2`: a resize leaves room under the threshold, and without one the threshold was not reached |
| `Dict32Spec.SetItemCorrect` | src/chapter4_real_python_dict.js:105-137 | `__setitem__` keeps a valid dict valid, with or without the resize, maps the key to the value, leaves every other key alone, raises `used` exactly when the key was absent, and leaves `fill * 3 < size * 2`; a resize drops every DUMMY (`fill == used`) |
| `Dict32Spec.SetThenGet` | src/chapter4_real_python_dict.js:105-137 | after `d[key] = value`, `d[key]` is `value` and every other key keeps its value |
| `RealPythonDict.Prober.ComputeIdxAndSave` | src/chapter4_real_python_dict.js:62-67 | the saved index and perturb are step 0 of the key's probe |
| `RealPythonDict.Prober.NextIdxAndSave` | src/chapter4_real_python_dict.js:69-74 | the saved index and perturb move from step `t` to step `t + 1` of the probe |
| `RealPythonDict.PairsMapSnoc` | src/chapter4_real_python_dict.js:196 | setting one more pair overrides that key in the mapping built so far |
| `RealPythonDict.Dict32.constructor` | src/chapter4_real_python_dict.js:191-204 | the new dict is valid and maps each key to the value of its last pair |
| `RealPythonDict.Dict32.Lookdict` | src/chapter4_real_python_dict.js:157-172 | the loop returns what the specification's lookdict returns |
| `RealPythonDict.Dict32.GetItem` | src/chapter4_real_python_dict.js:215-222 | the result is the specification's `__getitem__` |
| `RealPythonDict.Dict32.DelItem` | src/chapter4_real_python_dict.js:206-213 | the exception flag is set exactly on KeyError, the dict is then unchanged, and otherwise becomes the specification's result; the dict stays valid |
| `RealPythonDict.Dict32.SetItem` | src/chapter4_real_python_dict.js:224-229 | the dict stays valid, becomes the specification's `__setitem__`, maps the key to the value, and ends with `fill * 3 < size * 2` |
| `RealPythonDict.Dict32.FindTarget` | src/chapter4_real_python_dict.js:114-126 | the probe loop with its recycled DUMMY slot yields the specification's target |
| `RealPythonDict.Dict32.Resize` | src/chapter4_real_python_dict.js:139-155 | the dict afterwards is the specification's resize to `find_optimal_size(used)` slots |
| `RealPythonDict.Dict32.FreeSlot` | src/chapter4_real_python_dict.js:147-151 | resize's inner loop ends on the first EMPTY slot of the probe |

## Left out

- The breakpoints, the explanation strings, the React components and every other part of the visualisation are not modelled; the model's state is only what the computation itself reads and writes.
- `src/hash_impl_common.js` (`pyHash`, `computeIdx`) and `src/chapter3_and_4_common.js` (`hashClassConstructor`, `HashClassInsertAll` and the classes that execute set-item, lookdict, get-item, del-item and resize) are not part of this model. The dict operations follow the listings at `src/chapter4_real_python_dict.js:105-188`, stepping as the `chapter4Extend` mixin does. Every operation receives the hash function as a parameter, and `computeIdx` is Python's `hash_code % size`, as every listing states it.
- `find_optimal_size` is a parameter of `Dict32`, and `SizePolicy` states what it must give: a power of two in which `used` entries fill less than two thirds of the slots (`used * 3 < size * 2`), so that a resize never triggers another. The listing computes the size by `find_optimal_size(quot)` without showing the growth factor, so the factor itself is not modelled. The initial size that `hashClassConstructor` chooses is a parameter of the constructor, required to be a power of two.
- `RealPythonDict.Dict32.constructor` assumes that `HashClassInsertAll` sets the pairs in order through `__setitem__`.
- The chapter 2 loops test `keys[idx] === null`. The `create_new`, `has_key` and `remove` listings test `hash_codes[idx] is not EMPTY` instead. The model follows the loops. The two tests agree on an aligned table, because DUMMY keeps its hash code.
- Chapter 2's `insert`, `has_key` and `remove` require that the probe for the key stop within one lap (`StopsInLap`). Otherwise the source's loop never ends. That holds when an EMPTY slot exists (`ProbeStops`) and, on a valid table, whenever the key is stored (`PresentKeyStops`). A full table is reachable, for example `create_new(["a"])` followed by `insert("b")`, and searching for or removing a stored key in it is covered. Only a probe for an absent key in a table with no EMPTY slot is excluded. The lemmas about the operations' effect (`InsertKeepsValid`, `RemoveKeepsValid`, `SearchAfterRemove`) assume an EMPTY slot. For a non-empty table `remove`, `create_new` and `resize` keep one (`RemoveKeepsValid`, `CreateNewCorrect`, `ResizeCorrect`). `insert` of an absent key into a table with a single EMPTY slot fills that slot. `InsertKeepsValid` states the extra occupied slot and makes no claim about an EMPTY slot afterwards.
- The chapter 4 probes on a size that is not a power of two need not meet every slot, and the source's loops may then never end. `ProbingLinks.Run` therefore requires a power of two for `5i+1` and `python`, and `Dict32Spec.Valid` includes it.
- `Dict32Spec.StopStep` and `Dict32Spec.FreeStep` stop counting at the probe's bound. The bound is never reached when an EMPTY slot exists, which `Valid` guarantees.
- `__delitem__` sets the key to DUMMY and the value to EMPTY. The model folds both into a `DummySlot` that keeps the hash code, as the slot does in the source.
- The JS wrappers report `isException`. `has_key` returns a bool, `remove` and `__delitem__` return the flag, and `lookdict` and `__getitem__` return a `Result` whose failure is `KeyError`.
- Link targets are unbounded integers. The JS uses numbers, which are exact for every slot index.
- `ProbingLinks.Run` returns the number of steps as a ghost value. The source does not return it; it exists only to state how the result relates to the step count.
- Updates through Immutable.js lists are modelled as in-place writes to arrays (chapter 2) or as reassigned `seq` fields (chapter 4). Aliasing between the caller's lists and the returned ones is not modelled.
