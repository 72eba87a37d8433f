/** `GenerateProbingLinks.run` of chapter 4: follow one of three probing
    recurrences (`i+1`, `5i+1`, or CPython's perturbed `python` recurrence)
    from the slot a hash code selects, adding one link `idx -> next` per step,
    until every slot has been visited. */
module ProbingLinks {
  import opened HashCommon
  import opened FullPeriod
  import opened Perturbation

  /** The recurrences the generator knows. */
  datatype Algorithm = Linear | FiveIPlusOne | Python

  /** The name the generator is given for each recurrence; any other name is unknown. */
  function ParseAlgorithm(name: string): (r: Option<Algorithm>)
    ensures r == Some(Linear) <==> name == "i+1"
    ensures r == Some(FiveIPlusOne) <==> name == "5i+1"
    ensures r == Some(Python) <==> name == "python"
  {
    if name == "python" then Some(Python)
    else if name == "5i+1" then Some(FiveIPlusOne)
    else if name == "i+1" then Some(Linear)
    else None
  }

  /** The slot visited after `t` steps from slot `s` (`perturb0` is only used by `python`). */
  function Visit(algo: Algorithm, s: nat, perturb0: nat, n: nat, t: nat): (r: nat)
    requires n > 0 && s < n
    ensures r < n
  {
    if algo == Python then Walk(s, perturb0, n, t)
    else if algo == FiveIPlusOne then Iterate(s, n, t)
    else (s + t) % n
  }

  /** The number of steps within which the walk meets every slot. */
  function Bound(algo: Algorithm, perturb0: nat, n: nat): nat {
    if algo == Python then ProbeBound(perturb0, n) else n
  }

  /** The successor of a slot under the unperturbed recurrences. */
  function Successor(algo: Algorithm, i: nat, n: nat): (r: nat)
    requires n > 0
    ensures r < n
  {
    if algo == FiveIPlusOne then (5 * i + 1) % n else (i + 1) % n
  }

  /** The slots visited in the first `t` steps. */
  function VisitedSet(algo: Algorithm, s: nat, perturb0: nat, n: nat, t: nat): set<nat>
    requires n > 0 && s < n
  {
    if t == 0 then {} else VisitedSet(algo, s, perturb0, n, t - 1) + {Visit(algo, s, perturb0, n, t - 1)}
  }

  /** The link lists after `t` steps: step `k` appends `Visit(k + 1)` to the list of slot `Visit(k)`. */
  function LinksAfter(algo: Algorithm, s: nat, perturb0: nat, n: nat, t: nat): (links: seq<seq<int>>)
    requires n > 0 && s < n
    ensures |links| == n
    ensures forall i, k | 0 <= i < n && 0 <= k < |links[i]| :: 0 <= links[i][k] < n
  {
    if t == 0 then seq(n, _ => [])
    else
      var prev := LinksAfter(algo, s, perturb0, n, t - 1);
      var i := Visit(algo, s, perturb0, n, t - 1);
      prev[i := prev[i] + [Visit(algo, s, perturb0, n, t)]]
  }

  // ------------------------------------------------------------ stepping

  /** The loop's stepping agrees with `Visit`: for `python` the next slot comes
      from the perturb reached so far; for the others it is the successor. */
  lemma VisitStep(algo: Algorithm, s: nat, perturb0: nat, n: nat, t: nat)
    requires n > 0 && s < n
    ensures algo == Python ==>
      Visit(algo, s, perturb0, n, t + 1) == NextIdx(Visit(algo, s, perturb0, n, t), Shifted(perturb0, t), n) &&
      Shifted(perturb0, t + 1) == PerturbShift(Shifted(perturb0, t))
    ensures algo != Python ==>
      Visit(algo, s, perturb0, n, t + 1) == Successor(algo, Visit(algo, s, perturb0, n, t), n)
  {
    if algo == Python {
      WalkStep(s, perturb0, n, t);
    } else if algo != FiveIPlusOne {
      ModUnique(s + t, n, (s + t) / n, (s + t) % n);
      ModAddMultiple((s + t) % n + 1, (s + t) / n, n);
    }
  }

  /** Every slot is visited within `Bound` steps (for `5i+1` and `python` on a
      power-of-two table; for `i+1` on any table). */
  lemma VisitReaches(algo: Algorithm, s: nat, perturb0: nat, n: nat, e: nat) returns (t: nat)
    requires n > 0 && s < n && e < n
    requires algo != Linear ==> IsPowerOfTwo(n)
    ensures t < Bound(algo, perturb0, n) && Visit(algo, s, perturb0, n, t) == e
  {
    if algo == Python {
      t := ProbeReaches(s, perturb0, n, e);
    } else if algo == FiveIPlusOne {
      t := FullPeriodWitness(s, n, e);
    } else if s <= e {
      t := e - s;
      ModUnique(s + t, n, 0, e);
    } else {
      t := e + n - s;
      ModUnique(s + t, n, 1, e);
    }
  }

  /** The unperturbed recurrences visit `n` different slots in their first `n` steps. */
  lemma VisitInjective(algo: Algorithm, s: nat, n: nat, i: nat, j: nat)
    requires (algo == Linear && n > 0) || (algo == FiveIPlusOne && IsPowerOfTwo(n))
    requires s < n && i < j < n
    ensures Visit(algo, s, 0, n, i) != Visit(algo, s, 0, n, j)
  {
    if algo == FiveIPlusOne {
      IterateInjective(s, n, i, j);
    } else {
      var qi, qj := (s + i) / n, (s + j) / n;
      ModUnique(s + i, n, qi, (s + i) % n);
      ModUnique(s + j, n, qj, (s + j) % n);
      if (s + i) % n == (s + j) % n {
        assert (qj - qi) * n == j - i;
        if qj - qi >= 1 {
          MulAtLeast(qj - qi, n);
        } else {
          MulNonneg(qi - qj, n);
        }
      }
    }
  }

  // ------------------------------------------------------------ visited slots

  lemma {:induction false} VisitedWitness(algo: Algorithm, s: nat, perturb0: nat, n: nat, t: nat, x: nat)
    requires n > 0 && s < n
    ensures x in VisitedSet(algo, s, perturb0, n, t) <==>
      exists i | 0 <= i < t :: Visit(algo, s, perturb0, n, i) == x
  {
    if t > 0 {
      VisitedWitness(algo, s, perturb0, n, t - 1, x);
    }
  }

  lemma VisitedSize(algo: Algorithm, s: nat, perturb0: nat, n: nat, t: nat)
    requires n > 0 && s < n
    ensures |VisitedSet(algo, s, perturb0, n, t)| <= n
  {
    var v := VisitedSet(algo, s, perturb0, n, t);
    forall x | x in v ensures x in Range(n) {
      VisitedWitness(algo, s, perturb0, n, t, x);
    }
    SubsetSize(v, Range(n));
    RangeSize(n);
  }

  /** After `Bound` steps every slot has been visited. */
  lemma AllVisited(algo: Algorithm, s: nat, perturb0: nat, n: nat)
    requires n > 0 && s < n
    requires algo != Linear ==> IsPowerOfTwo(n)
    ensures |VisitedSet(algo, s, perturb0, n, Bound(algo, perturb0, n))| == n
  {
    var v := VisitedSet(algo, s, perturb0, n, Bound(algo, perturb0, n));
    forall e | e in Range(n) ensures e in v {
      var t := VisitReaches(algo, s, perturb0, n, e);
      VisitedWitness(algo, s, perturb0, n, Bound(algo, perturb0, n), e);
    }
    VisitedSize(algo, s, perturb0, n, Bound(algo, perturb0, n));
    SubsetSize(Range(n), v);
    RangeSize(n);
  }

  /** The unperturbed recurrences visit a new slot at each of their first `n` steps. */
  lemma {:induction false} VisitedCount(algo: Algorithm, s: nat, n: nat, t: nat)
    requires (algo == Linear && n > 0) || (algo == FiveIPlusOne && IsPowerOfTwo(n))
    requires s < n && t <= n
    ensures |VisitedSet(algo, s, 0, n, t)| == t
  {
    if t > 0 {
      VisitedCount(algo, s, n, t - 1);
      if Visit(algo, s, 0, n, t - 1) in VisitedSet(algo, s, 0, n, t - 1) {
        VisitedWitness(algo, s, 0, n, t - 1, Visit(algo, s, 0, n, t - 1));
        var i :| 0 <= i < t - 1 && Visit(algo, s, 0, n, i) == Visit(algo, s, 0, n, t - 1);
        VisitInjective(algo, s, n, i, t - 1);
      }
    }
  }

  // ------------------------------------------------------------ links

  /** A slot has links exactly when it has been visited. */
  lemma {:induction false} LinksOfVisited(algo: Algorithm, s: nat, perturb0: nat, n: nat, t: nat, i: nat)
    requires n > 0 && s < n && i < n
    ensures LinksAfter(algo, s, perturb0, n, t)[i] != [] <==> i in VisitedSet(algo, s, perturb0, n, t)
  {
    if t > 0 {
      LinksOfVisited(algo, s, perturb0, n, t - 1, i);
    }
  }

  /** For the unperturbed recurrences, within the first `n` steps each visited
      slot holds exactly one link, to its successor. */
  lemma {:induction false} OneLinkEach(algo: Algorithm, s: nat, n: nat, t: nat, i: nat)
    requires (algo == Linear && n > 0) || (algo == FiveIPlusOne && IsPowerOfTwo(n))
    requires s < n && t <= n && i < n
    ensures LinksAfter(algo, s, 0, n, t)[i] ==
      if i in VisitedSet(algo, s, 0, n, t) then [Successor(algo, i, n)] else []
  {
    if t > 0 {
      OneLinkEach(algo, s, n, t - 1, i);
      var v := Visit(algo, s, 0, n, t - 1);
      VisitStep(algo, s, 0, n, t - 1);
      if i == v {
        VisitedCount(algo, s, n, t - 1);
        VisitedCount(algo, s, n, t);
      }
    }
  }

  /** With `i+1`, or with `5i+1` on a power-of-two table, the generator stops
      after exactly `n` steps and every slot receives exactly one link, to its
      successor. */
  lemma ExactlyOneLinkPerSlot(algo: Algorithm, s: nat, n: nat)
    requires (algo == Linear && n > 0) || (algo == FiveIPlusOne && IsPowerOfTwo(n))
    requires s < n
    ensures |VisitedSet(algo, s, 0, n, n)| == n
    ensures forall t | 0 <= t < n :: |VisitedSet(algo, s, 0, n, t)| < n
    ensures forall i | 0 <= i < n :: LinksAfter(algo, s, 0, n, n)[i] == [Successor(algo, i, n)]
  {
    VisitedCount(algo, s, n, n);
    forall t | 0 <= t < n ensures |VisitedSet(algo, s, 0, n, t)| < n {
      VisitedCount(algo, s, n, t);
    }
    forall i | 0 <= i < n ensures LinksAfter(algo, s, 0, n, n)[i] == [Successor(algo, i, n)] {
      OneLinkEach(algo, s, n, n, i);
      var v := VisitedSet(algo, s, 0, n, n);
      VisitedSize(algo, s, 0, n, n);
      forall x | x in v ensures x in Range(n) {
        VisitedWitness(algo, s, 0, n, n, x);
      }
      FullSubsetOfRange(v, n);
    }
  }

  /** `i+1` and `5i+1` never look at the perturb: their visited sets and
      links after `t` steps are those of the walk started with perturb 0. */
  lemma {:induction false} PerturbIgnored(algo: Algorithm, s: nat, perturb0: nat, n: nat, t: nat)
    requires n > 0 && s < n && algo != Python
    ensures VisitedSet(algo, s, perturb0, n, t) == VisitedSet(algo, s, 0, n, t)
    ensures LinksAfter(algo, s, perturb0, n, t) == LinksAfter(algo, s, 0, n, t)
  {
    if t > 0 {
      PerturbIgnored(algo, s, perturb0, n, t - 1);
    }
  }

  /** The generator's stopping rule (every slot visited after `steps` steps,
      not after any earlier step) forces `steps == n` for `i+1` and `5i+1`,
      and then every slot holds exactly one link, to its successor. */
  lemma StopsAfterN(algo: Algorithm, s: nat, perturb0: nat, n: nat, steps: nat)
    requires (algo == Linear && n > 0) || (algo == FiveIPlusOne && IsPowerOfTwo(n))
    requires s < n
    requires |VisitedSet(algo, s, perturb0, n, steps)| == n
    requires StillOpen(algo, s, perturb0, n, steps)
    ensures steps == n
    ensures forall i | 0 <= i < n :: LinksAfter(algo, s, perturb0, n, steps)[i] == [Successor(algo, i, n)]
  {
    PerturbIgnored(algo, s, perturb0, n, steps);
    ExactlyOneLinkPerSlot(algo, s, n);
    if steps < n {
      VisitedCount(algo, s, n, steps);
    } else if steps > n {
      PerturbIgnored(algo, s, perturb0, n, n);
    }
  }

  // ------------------------------------------------------------ loop state

  /** The slot the generator steps to from `idx`, given the perturb reached so far. */
  function NextSlot(algo: Algorithm, idx: nat, perturb: nat, n: nat): (r: nat)
    requires n > 0
    ensures r < n
  {
    if algo == Python then NextIdx(idx, perturb, n) else Successor(algo, idx, n)
  }

  /** The generator's state after `t` steps: the current slot and perturb, the
      visited set and the links agree with the specification functions. */
  ghost predicate Walked(algo: Algorithm, s: nat, perturb0: nat, n: nat, t: nat,
                         idx: nat, perturb: nat, visited: set<nat>, links: seq<seq<int>>)
    requires n > 0 && s < n
  {
    && idx == Visit(algo, s, perturb0, n, t)
    && (algo == Python ==> perturb == Shifted(perturb0, t))
    && visited == VisitedSet(algo, s, perturb0, n, t)
    && links == LinksAfter(algo, s, perturb0, n, t)
  }

  /** Before step `t` the generator had not yet visited every slot. */
  ghost predicate StillOpen(algo: Algorithm, s: nat, perturb0: nat, n: nat, t: nat)
    requires n > 0 && s < n
  {
    forall k | 0 <= k < t :: |VisitedSet(algo, s, perturb0, n, k)| < n
  }

  /** One iteration of the generator's loop takes the state after `t` steps to
      the state after `t + 1` steps. */
  lemma Advance(algo: Algorithm, s: nat, perturb0: nat, n: nat, t: nat,
                idx: nat, perturb: nat, visited: set<nat>, links: seq<seq<int>>)
    requires n > 0 && s < n
    requires Walked(algo, s, perturb0, n, t, idx, perturb, visited, links)
    ensures idx < n
    ensures Walked(algo, s, perturb0, n, t + 1, NextSlot(algo, idx, perturb, n),
                   if algo == Python then PerturbShift(perturb) else perturb,
                   visited + {idx}, links[idx := links[idx] + [NextSlot(algo, idx, perturb, n)]])
  {
    VisitStep(algo, s, perturb0, n, t);
  }

  /** While some slot is unvisited the loop is still within `Bound` steps, and
      it goes on with every earlier step still open. */
  lemma StaysOpen(algo: Algorithm, s: nat, perturb0: nat, n: nat, t: nat)
    requires n > 0 && s < n
    requires algo != Linear ==> IsPowerOfTwo(n)
    requires StillOpen(algo, s, perturb0, n, t) && |VisitedSet(algo, s, perturb0, n, t)| != n
    requires t <= Bound(algo, perturb0, n)
    ensures t < Bound(algo, perturb0, n)
    ensures StillOpen(algo, s, perturb0, n, t + 1)
  {
    VisitedSize(algo, s, perturb0, n, t);
    AllVisited(algo, s, perturb0, n);
  }

  // ------------------------------------------------------------ the generator

  /** `GenerateProbingLinks.run`.  The result has one link list per slot; the
      loop stops at the first step where every slot has been visited; with no
      slots it returns no lists; an unknown algorithm name raises an error.
      `steps` is the number of links added. */
  method Run<K>(hash: K -> HashCode, slotsCount: nat, key: K, algoName: string)
    returns (result: Result<seq<seq<int>>>, ghost steps: nat)
    requires slotsCount > 0 && (algoName == "5i+1" || algoName == "python") ==> IsPowerOfTwo(slotsCount)
    ensures slotsCount == 0 ==> result == Success([])
    ensures slotsCount > 0 && ParseAlgorithm(algoName).None? ==>
      result == Failure(UnknownProbingAlgorithm(algoName))
    ensures slotsCount > 0 && ParseAlgorithm(algoName).Some? ==>
      var algo := ParseAlgorithm(algoName).value;
      var s := ComputeIdx(hash(key), slotsCount);
      var p := ComputePerturb(hash(key));
      result == Success(LinksAfter(algo, s, p, slotsCount, steps)) &&
      |VisitedSet(algo, s, p, slotsCount, steps)| == slotsCount &&
      StillOpen(algo, s, p, slotsCount, steps)
    ensures slotsCount > 0 && (algoName == "i+1" || algoName == "5i+1") ==>
      var algo := ParseAlgorithm(algoName).value;
      steps == slotsCount && result.Success? &&
      forall i | 0 <= i < slotsCount :: result.value[i] == [Successor(algo, i, slotsCount)]
  {
    var links: seq<seq<int>> := seq(slotsCount, _ => []);
    steps := 0;
    if slotsCount == 0 {
      assert links == [];
      return Success(links), steps;
    }
    var n := slotsCount;
    var h := hash(key);
    var parsed := ParseAlgorithm(algoName);
    var perturb: nat := 0;
    if parsed == Some(Python) {
      perturb := ComputePerturb(h);
    }
    ghost var p0 := ComputePerturb(h);
    var idx := ComputeIdx(h, n);
    ghost var s := idx;
    ModUnique(s, n, 0, s);
    ghost var algo := if parsed.Some? then parsed.value else Linear;
    ghost var bound := Bound(algo, p0, n);
    var visited: set<nat> := {};
    while true
      invariant steps <= bound
      invariant parsed.None? ==> steps == 0 && visited == {}
      invariant Walked(algo, s, p0, n, steps, idx, perturb, visited, links)
      invariant StillOpen(algo, s, p0, n, steps)
      decreases bound - steps
    {
      if |visited| == n {
        break;
      }
      StaysOpen(algo, s, p0, n, steps);
      Advance(algo, s, p0, n, steps, idx, perturb, visited, links);
      visited := visited + {idx};
      var nIdx: nat;
      match parsed {
        case Some(Python) =>
          nIdx := NextIdx(idx, perturb, n);
        case Some(FiveIPlusOne) =>
          nIdx := Successor(FiveIPlusOne, idx, n);
        case Some(Linear) =>
          nIdx := Successor(Linear, idx, n);
        case None =>
          return Failure(UnknownProbingAlgorithm(algoName)), steps;
      }
      assert nIdx == NextSlot(algo, idx, perturb, n);
      links := links[idx := links[idx] + [nIdx]];
      idx := nIdx;
      if parsed == Some(Python) {
        perturb := PerturbShift(perturb);
      }
      steps := steps + 1;
    }
    result := Success(links);
    if algo != Python {
      StopsAfterN(algo, s, p0, n, steps);
    }
  }
}
