/**
 The greedy assignment of whole entry groups to build partitions (tsdown.config.ts): each group
 goes to the partition that holds the fewest entries so far.
*/
module LoadBalance {
  import opened Wrappers
  import opened Sequences

  datatype PartitionError = PartitionCountMustBePositive

  // ---------------------------------------------------------------------------------------
  // The assignment as a function

  /** The first of the shortest partitions. */
  predicate IsTarget<T>(partitions: seq<seq<T>>, t: nat) {
    && t < |partitions|
    && (forall i :: 0 <= i < |partitions| ==> |partitions[t]| <= |partitions[i]|)
    && (forall i :: 0 <= i < t ==> |partitions[t]| < |partitions[i]|)
  }

  function Target<T>(partitions: seq<seq<T>>): (t: nat)
    requires partitions != []
    ensures IsTarget(partitions, t)
  {
    var n := |partitions| - 1;
    if n == 0 then 0
    else
      var t := Target(partitions[..n]);
      if |partitions[n]| < |partitions[t]| then n else t
  }

  function Empties<T>(m: nat): seq<seq<T>> {
    seq(m, _ => [])
  }

  /** The partitions after all groups have been handed out in order. */
  function Greedy<T>(groups: seq<seq<T>>, m: nat): (r: seq<seq<T>>)
    requires m > 0
    ensures |r| == m
  {
    if groups == [] then Empties(m) else
      var before := Greedy(groups[..|groups| - 1], m);
      var t := Target(before);
      before[t := before[t] + groups[|groups| - 1]]
  }

  /** The partition each group went to. */
  function Choices<T>(groups: seq<seq<T>>, m: nat): (r: seq<nat>)
    requires m > 0
    ensures |r| == |groups| && forall i :: 0 <= i < |r| ==> r[i] < m
  {
    if groups == [] then [] else
      Choices(groups[..|groups| - 1], m) + [Target(Greedy(groups[..|groups| - 1], m))]
  }

  // ---------------------------------------------------------------------------------------
  // The assignment as the program runs it

  lemma {:induction false} TargetSoFar<T>(partitions: seq<seq<T>>, index: nat, t: nat)
    requires index < |partitions| && IsTarget(partitions[..index], t)
    ensures IsTarget(partitions[..index + 1], if |partitions[index]| < |partitions[t]| then index else t)
  {
    assert forall i :: 0 <= i < index ==> partitions[..index][i] == partitions[..index + 1][i];
  }

  lemma {:induction false} TargetIsUnique<T>(partitions: seq<seq<T>>, t: nat)
    requires IsTarget(partitions, t)
    ensures Target(partitions) == t
  {
    hide Target;
    var u := Target(partitions);
    assert |partitions[t]| <= |partitions[u]| && |partitions[u]| <= |partitions[t]|;
  }

  lemma {:induction false} GreedyNext<T>(groups: seq<seq<T>>, m: nat, g: nat, t: nat)
    requires m > 0 && g < |groups| && IsTarget(Greedy(groups[..g], m), t)
    ensures Greedy(groups[..g + 1], m) == Greedy(groups[..g], m)[t := Greedy(groups[..g], m)[t] + groups[g]]
  {
    hide Target, IsTarget;
    assert groups[..g + 1][..g] == groups[..g];
    TargetIsUnique(Greedy(groups[..g], m), t);
  }

  method PartitionUnifiedEntryGroups<T>(entryGroups: seq<seq<T>>, partitionCount: nat)
    returns (r: Result<seq<seq<T>>, PartitionError>)
    ensures r == if partitionCount > 0 then Ok(Greedy(entryGroups, partitionCount))
                 else if entryGroups == [] then Ok([])
                 else Err(PartitionCountMustBePositive)
  {
    hide IsTarget, Target;
    var partitions := new seq<T>[partitionCount](_ => []);
    assert partitions[..] == Empties<T>(partitionCount);
    for g := 0 to |entryGroups|
      invariant fresh(partitions)
      invariant partitionCount == 0 ==> g == 0
      invariant partitionCount > 0 ==> partitions[..] == Greedy(entryGroups[..g], partitionCount)
    {
      hide Greedy, Empties;
      var targetIndex := 0;
      var index := 1;
      ghost var loads := partitions[..];
      if partitionCount > 0 {
        FirstIsTarget(loads);
      }
      while index < partitions.Length
        invariant partitionCount > 0 ==>
                    index <= partitionCount && targetIndex < index && IsTarget(loads[..index], targetIndex)
        invariant partitions[..] == loads
      {
        TargetSoFar(loads, index, targetIndex);
        if |partitions[index]| < |partitions[targetIndex]| {
          targetIndex := index;
        }
        index := index + 1;
      }
      if targetIndex >= partitions.Length {
        return Err(PartitionCountMustBePositive);
      }
      assert loads[..partitions.Length] == loads;
      GreedyNext(entryGroups, partitionCount, g, targetIndex);
      partitions[targetIndex] := partitions[targetIndex] + entryGroups[g];
      assert partitions[..] == loads[targetIndex := loads[targetIndex] + entryGroups[g]];
    }
    assert entryGroups[..|entryGroups|] == entryGroups;
    return Ok(partitions[..]);
  }

  lemma {:induction false} FirstIsTarget<T>(partitions: seq<seq<T>>)
    requires partitions != []
    ensures IsTarget(partitions[..1], 0)
  {
  }

  // ---------------------------------------------------------------------------------------
  // Whole groups, nothing lost

  /** The groups that `choices` sends to partition `p`, one after the other. */
  function Collected<T>(groups: seq<seq<T>>, choices: seq<nat>, p: nat): seq<T>
    requires |choices| == |groups|
  {
    if groups == [] then [] else
      var n := |groups| - 1;
      Collected(groups[..n], choices[..n], p) + if choices[n] == p then groups[n] else []
  }

  /** Every partition is made of whole groups in their order, each group in the one partition chosen
      for it. */
  lemma {:induction false} PartitionsAreWholeGroups<T>(groups: seq<seq<T>>, m: nat, p: nat)
    requires p < m
    ensures Greedy(groups, m)[p] == Collected(groups, Choices(groups, m), p)
  {
    if groups != [] {
      var n := |groups| - 1;
      PartitionsAreWholeGroups(groups[..n], m, p);
      assert Choices(groups, m)[..n] == Choices(groups[..n], m);
    }
  }

  lemma {:induction false} EmptiesFlatten<T>(m: nat)
    ensures Flatten(Empties<T>(m)) == []
  {
    if m > 0 {
      assert Empties<T>(m)[..m - 1] == Empties<T>(m - 1);
      EmptiesFlatten<T>(m - 1);
    }
  }

  lemma {:induction false} NothingLostOrDuplicated<T>(groups: seq<seq<T>>, m: nat)
    requires m > 0
    ensures multiset(Flatten(Greedy(groups, m))) == multiset(Flatten(groups))
  {
    if groups == [] {
      EmptiesFlatten<T>(m);
    } else {
      var n := |groups| - 1;
      var before := Greedy(groups[..n], m);
      NothingLostOrDuplicated(groups[..n], m);
      FlattenUpdate(before, Target(before), groups[n]);
    }
  }

  // ---------------------------------------------------------------------------------------
  // How uneven the loads can get

  lemma {:induction false} TimesSum(a: nat, b: nat, c: nat)
    ensures a * (b + c) == a * b + a * c
  {
  }

  lemma {:induction false} TimesMonotone(a: nat, b: nat, c: nat)
    requires b <= c
    ensures a * b <= a * c
  {
    TimesSum(a, b, c - b);
  }

  lemma {:induction false} TimesOneMore(a: nat, b: nat)
    ensures (a + 1) * b == a * b + b
  {
  }

  /** m times the smallest load is at most the total. */
  lemma {:induction false} SmallestTimesCount<T>(partitions: seq<seq<T>>, least: nat)
    requires forall i :: 0 <= i < |partitions| ==> least <= |partitions[i]|
    ensures |partitions| * least <= |Flatten(partitions)|
  {
    if partitions != [] {
      SmallestTimesCount(partitions[..|partitions| - 1], least);
      TimesOneMore(|partitions| - 1, least);
    }
  }

  /** What one more group changes. */
  lemma {:induction false} GreedyStep<T>(groups: seq<seq<T>>, m: nat, p: nat)
    requires p < m && groups != []
    ensures var n := |groups| - 1;
            var before := Greedy(groups[..n], m);
            && |Greedy(groups, m)[p]| == |before[p]| + (if p == Target(before) then |groups[n]| else 0)
            && |Flatten(groups)| == |Flatten(groups[..n])| + |groups[n]|
  {
  }

  lemma {:induction false} SmallestAtMostAverage<T>(groups: seq<seq<T>>, m: nat)
    requires m > 0
    ensures m * |Greedy(groups, m)[Target(Greedy(groups, m))]| <= |Flatten(groups)|
  {
    var before := Greedy(groups, m);
    SmallestTimesCount(before, |before[Target(before)]|);
    NothingLostOrDuplicated(groups, m);
    SameSize(Flatten(before), Flatten(groups));
  }

  /** The bound for list scheduling: m times any load is at most the total plus (m - 1) times the
      largest group. */
  lemma {:induction false} LoadBound<T>(groups: seq<seq<T>>, m: nat, largest: nat, p: nat)
    requires p < m
    requires forall i :: 0 <= i < |groups| ==> |groups[i]| <= largest
    ensures m * |Greedy(groups, m)[p]| <= |Flatten(groups)| + (m - 1) * largest
  {
    if groups == [] {
      TimesMonotone(m - 1, 0, largest);
    } else {
      hide Greedy, Flatten, Target;
      var n := |groups| - 1;
      var before := Greedy(groups[..n], m);
      LoadBound(groups[..n], m, largest, p);
      GreedyStep(groups, m, p);
      if p == Target(before) {
        SmallestAtMostAverage(groups[..n], m);
        Distribute(m, |before[p]|, |groups[n]|, |Greedy(groups, m)[p]|, largest);
      }
    }
  }

  lemma {:induction false} SameSize<T>(a: seq<T>, b: seq<T>)
    requires multiset(a) == multiset(b)
    ensures |a| == |b|
  {
    assert |multiset(a)| == |a| && |multiset(b)| == |b|;
  }

  lemma {:induction false} Distribute(m: nat, least: nat, g: nat, load: nat, largest: nat)
    requires m > 0 && g <= largest && load == least + g
    ensures m * load <= m * least + g + (m - 1) * largest
  {
    TimesSum(m, least, g);
    TimesOneMore(m - 1, g);
    TimesMonotone(m - 1, g, largest);
  }

  /** The entries of the first m partitions of any assignment. */
  function Spread<T>(groups: seq<seq<T>>, choices: seq<nat>, m: nat): seq<seq<T>>
    requires |choices| == |groups|
  {
    seq(m, p requires 0 <= p < m => Collected(groups, choices, p))
  }

  lemma {:induction false} SpreadHasTotal<T>(groups: seq<seq<T>>, choices: seq<nat>, m: nat)
    requires |choices| == |groups| && forall i :: 0 <= i < |choices| ==> choices[i] < m
    ensures multiset(Flatten(Spread(groups, choices, m))) == multiset(Flatten(groups))
  {
    if groups == [] {
      assert Spread(groups, choices, m) == Empties<T>(m);
      EmptiesFlatten<T>(m);
    } else {
      var n := |groups| - 1;
      var before, c := Spread(groups[..n], choices[..n], m), choices[n];
      SpreadHasTotal(groups[..n], choices[..n], m);
      FlattenUpdate(before, c, groups[n]);
      SpreadStep(groups, choices, m);
    }
  }

  lemma {:induction false} SpreadStep<T>(groups: seq<seq<T>>, choices: seq<nat>, m: nat)
    requires groups != [] && |choices| == |groups| && choices[|groups| - 1] < m
    ensures var n := |groups| - 1;
            var before, c := Spread(groups[..n], choices[..n], m), choices[n];
            Spread(groups, choices, m) == before[c := before[c] + groups[n]]
  {
    var n := |groups| - 1;
    var before, after := Spread(groups[..n], choices[..n], m), Spread(groups, choices, m);
    forall p | 0 <= p < m
      ensures after[p] == if p == choices[n] then before[p] + groups[n] else before[p]
    {
      assert after[p] == Collected(groups, choices, p);
      assert before[p] == Collected(groups[..n], choices[..n], p);
    }
  }

  lemma {:induction false} FlattenAtMost<T>(partitions: seq<seq<T>>, most: nat)
    requires forall i :: 0 <= i < |partitions| ==> |partitions[i]| <= most
    ensures |Flatten(partitions)| <= |partitions| * most
  {
    if partitions != [] {
      FlattenAtMost(partitions[..|partitions| - 1], most);
      TimesOneMore(|partitions| - 1, most);
    }
  }

  lemma {:induction false} GroupFits<T>(groups: seq<seq<T>>, choices: seq<nat>, i: nat)
    requires |choices| == |groups| && i < |groups|
    ensures |groups[i]| <= |Collected(groups, choices, choices[i])|
  {
    if i < |groups| - 1 {
      GroupFits(groups[..|groups| - 1], choices[..|groups| - 1], i);
    }
  }

  /** Against any other assignment of the same groups to m partitions: if all its loads are at most
      `best`, then m times each greedy load is at most (2m - 1) times `best`. */
  lemma {:induction false} GreedyAgainstAnyAssignment<T>(groups: seq<seq<T>>, m: nat, choices: seq<nat>, best: nat,
                                                         p: nat)
    requires p < m
    requires |choices| == |groups| && forall i :: 0 <= i < |choices| ==> choices[i] < m
    requires forall q :: 0 <= q < m ==> |Collected(groups, choices, q)| <= best
    ensures m * |Greedy(groups, m)[p]| <= (2 * m - 1) * best
  {
    hide Greedy, Flatten, Collected;
    forall i | 0 <= i < |groups| ensures |groups[i]| <= best {
      GroupFits(groups, choices, i);
    }
    LoadBound(groups, m, best, p);
    FlattenAtMost(Spread(groups, choices, m), best);
    SpreadHasTotal(groups, choices, m);
    SameSize(Flatten(Spread(groups, choices, m)), Flatten(groups));
    assert m * best + (m - 1) * best == (2 * m - 1) * best by { TwoTimes(m, best); }
  }

  lemma {:induction false} TwoTimes(m: nat, best: nat)
    requires m > 0
    ensures m * best + (m - 1) * best == (2 * m - 1) * best
  {
  }

  /** With single entries the loads are as even as they can be. */
  lemma {:induction false} SingletonsAreEven<T>(groups: seq<seq<T>>, m: nat, p: nat, q: nat)
    requires p < m && q < m
    requires forall i :: 0 <= i < |groups| ==> |groups[i]| == 1
    ensures |Greedy(groups, m)[p]| <= |Greedy(groups, m)[q]| + 1
  {
    if groups != [] {
      var before := Greedy(groups[..|groups| - 1], m);
      SingletonsAreEven(groups[..|groups| - 1], m, p, q);
      SingletonsAreEven(groups[..|groups| - 1], m, p, Target(before));
    }
  }
}
