/** Cutting the pending translations into prompts (scripts/control-ui-i18n.ts). */
module TranslationBatching {
  import opened Sequences

  datatype Item = Item(key: string, text: string)

  const MAX_BATCH_ITEMS := 20

  function EstimateBatchChars(items: seq<Item>): nat {
    if items == [] then 2 else
      var last := items[|items| - 1];
      EstimateBatchChars(items[..|items| - 1]) + |last.key| + |last.text| + 8
  }

  /** What the batcher charges for a batch: it estimates every item on its own. */
  function Charge(batch: seq<Item>): nat {
    if batch == [] then 2 else Charge(batch[..|batch| - 1]) + EstimateBatchChars([batch[|batch| - 1]])
  }

  lemma {:induction false} EstimateOne(item: Item)
    ensures EstimateBatchChars([item]) == |item.key| + |item.text| + 10
  {
    assert [item][..0] == [];
  }

  /** The keys and texts of a batch, one behind the other. */
  function AllText(batch: seq<Item>): string {
    Flatten(seq(|batch|, i requires 0 <= i < |batch| => batch[i].key + batch[i].text))
  }

  /** The charge of a batch is the estimate of the whole batch and two characters for each item; that is
      two, ten for each item, and the length of all the keys and texts. */
  lemma {:induction false} ChargeIs(batch: seq<Item>)
    ensures Charge(batch) == EstimateBatchChars(batch) + 2 * |batch|
    ensures Charge(batch) == 2 + 10 * |batch| + |AllText(batch)|
  {
    if batch != [] {
      var n := |batch| - 1;
      ChargeIs(batch[..n]);
      EstimateOne(batch[n]);
      var texts := seq(|batch|, i requires 0 <= i < |batch| => batch[i].key + batch[i].text);
      assert texts[..n] == seq(n, i requires 0 <= i < n => batch[..n][i].key + batch[..n][i].text);
      FlattenLast(texts);
    }
  }

  predicate Legal(batch: seq<Item>, budget: real) {
    && 1 <= |batch| <= MAX_BATCH_ITEMS
    && (|batch| >= 2 ==> Charge(batch) as real <= budget)
  }

  /** A way of cutting `items`, in order, into legal batches. */
  predicate LegalSplit(batches: seq<seq<Item>>, items: seq<Item>, budget: real) {
    Flatten(batches) == items && forall i :: 0 <= i < |batches| ==> Legal(batches[i], budget)
  }

  /** No batch could have taken the first item of the next one as well. */
  predicate Tight(batches: seq<seq<Item>>, budget: real) {
    forall i :: 0 <= i < |batches| - 1 && batches[i + 1] != [] ==> !Legal(batches[i] + [batches[i + 1][0]], budget)
  }

  function Closed(batches: seq<seq<Item>>, current: seq<Item>): seq<seq<Item>> {
    if current == [] then batches else batches + [current]
  }

  method BuildTranslationBatches(items: seq<Item>, budget: real) returns (batches: seq<seq<Item>>)
    ensures LegalSplit(batches, items, budget)
    ensures forall other :: LegalSplit(other, items, budget) ==> |batches| <= |other|
  {
    NothingTaken(budget);
    hide Charge, EstimateBatchChars, Flatten, Tight, LegalSplit;
    batches := [];
    var current: seq<Item> := [];
    var currentChars: nat := 2;
    for i := 0 to |items|
      invariant LegalSplit(Closed(batches, current), items[..i], budget)
      invariant Tight(Closed(batches, current), budget)
      invariant currentChars == Charge(current)
      invariant current == [] ==> batches == [] && i == 0
    {
      var item := items[i];
      var itemChars := EstimateBatchChars([item]);
      var wouldOverflow := |current| > 0 && (currentChars + itemChars) as real > budget;
      var reachedMaxItems := |current| >= MAX_BATCH_ITEMS;
      assert items[..i + 1] == items[..i] + [item];
      TakeItem(batches, current, items[..i], item, budget);
      if wouldOverflow || reachedMaxItems {
        batches := batches + [current];
        current := [];
        currentChars := 2;
      }
      current := current + [item];
      currentChars := currentChars + itemChars;
    }
    assert items[..|items|] == items;
    batches := Closed(batches, current);
    forall other | LegalSplit(other, items, budget)
      ensures |batches| <= |other|
    {
      TightIsOptimal(batches, other, items, budget);
    }
  }

  lemma {:induction false} NothingTaken(budget: real)
    ensures LegalSplit([], [], budget) && Tight([], budget) && Charge([]) == 2
  {
  }

  /** One item joins the current batch if that stays legal, and otherwise starts the next one. */
  lemma {:induction false} TakeItem(batches: seq<seq<Item>>, current: seq<Item>, items: seq<Item>, item: Item,
                                    budget: real)
    requires LegalSplit(Closed(batches, current), items, budget) && Tight(Closed(batches, current), budget)
    requires current == [] ==> batches == []
    ensures Charge(current + [item]) == Charge(current) + EstimateBatchChars([item])
    ensures Charge([item]) == 2 + EstimateBatchChars([item]) && [] + [item] == [item]
    ensures Legal(current + [item], budget) || current != []
    ensures var next := if Legal(current + [item], budget) then Closed(batches, current + [item])
                        else Closed(batches + [current], [item]);
            LegalSplit(next, items + [item], budget) && Tight(next, budget)
  {
    assert (current + [item])[..|current|] == current;
    assert [item][..0] == [];
    if current == [] {
      assert [[item]][..0] == [] && Flatten([[item]]) == [] + [item];
    } else if Legal(current + [item], budget) {
      GrowLast(batches, current, items, item, budget);
    } else {
      StartNext(batches, current, items, item, budget);
    }
  }

  lemma {:induction false} FlattenAppend(batches: seq<seq<Item>>, last: seq<Item>)
    ensures Flatten(batches + [last]) == Flatten(batches) + last
  {
    FlattenLast(batches + [last]);
    hide Flatten;
    assert (batches + [last])[..|batches|] == batches;
  }

  lemma {:induction false} GrowLast(batches: seq<seq<Item>>, current: seq<Item>, items: seq<Item>, item: Item,
                                    budget: real)
    requires current != [] && LegalSplit(batches + [current], items, budget) && Tight(batches + [current], budget)
    requires Legal(current + [item], budget)
    ensures LegalSplit(batches + [current + [item]], items + [item], budget)
    ensures Tight(batches + [current + [item]], budget)
  {
    hide Legal;
    FlattenAppend(batches, current);
    FlattenAppend(batches, current + [item]);
    assert Flatten(batches) + (current + [item]) == (Flatten(batches) + current) + [item];
    var before, after := batches + [current], batches + [current + [item]];
    assert forall i :: 0 <= i < |batches| ==> before[i] == after[i];
    assert (current + [item])[0] == current[0];
  }

  lemma {:induction false} StartNext(batches: seq<seq<Item>>, current: seq<Item>, items: seq<Item>, item: Item,
                                     budget: real)
    requires LegalSplit(batches + [current], items, budget) && Tight(batches + [current], budget)
    requires !Legal(current + [item], budget) && Legal([item], budget)
    ensures LegalSplit(batches + [current] + [[item]], items + [item], budget)
    ensures Tight(batches + [current] + [[item]], budget)
  {
    hide Legal;
    var before := batches + [current];
    FlattenAppend(before, [item]);
    var after := before + [[item]];
    assert forall i :: 0 <= i < |before| ==> before[i] == after[i];
  }

  // ---------------------------------------------------------------------------------------
  // A tight split is optimal

  function End(batches: seq<seq<Item>>, j: nat): nat
    requires j <= |batches|
  {
    |Flatten(batches[..j])|
  }

  lemma {:induction false} ChargeConcat(a: seq<Item>, b: seq<Item>)
    ensures Charge(a + b) == Charge(a) + Charge(b) - 2
  {
    if b == [] {
      assert a + b == a;
    } else {
      assert (a + b)[..|a + b| - 1] == a + b[..|b| - 1];
      ChargeConcat(a, b[..|b| - 1]);
    }
  }

  lemma {:induction false} ChargeAtLeastTwo(batch: seq<Item>)
    ensures Charge(batch) >= 2
  {
    if batch != [] {
      ChargeAtLeastTwo(batch[..|batch| - 1]);
    }
  }

  /** Part of a legal batch is legal. */
  lemma {:induction false} PartIsLegal(batch: seq<Item>, i: nat, j: nat, budget: real)
    requires Legal(batch, budget) && i < j <= |batch|
    ensures Legal(batch[i..j], budget)
  {
    hide Charge;
    ChargeConcat(batch[..i], batch[i..j]);
    ChargeConcat(batch[..i] + batch[i..j], batch[j..]);
    assert batch[..i] + batch[i..j] + batch[j..] == batch;
    ChargeAtLeastTwo(batch[..i]);
    ChargeAtLeastTwo(batch[j..]);
  }

  /** The j-th batch is what lies between two ends. */
  lemma {:induction false} BatchBetweenEnds(batches: seq<seq<Item>>, items: seq<Item>, j: nat)
    requires Flatten(batches) == items && j < |batches|
    ensures End(batches, j + 1) == End(batches, j) + |batches[j]| <= |items|
    ensures batches[j] == items[End(batches, j)..End(batches, j + 1)]
  {
    var upTo := batches[..j + 1];
    assert upTo[..j] == batches[..j];
    FlattenConcat(upTo, batches[j + 1..]);
    assert upTo + batches[j + 1..] == batches;
  }

  lemma {:induction false} OneMoreItem(items: seq<Item>, from: nat, to: nat, a: nat, b: nat)
    requires from <= a <= b < to <= |items|
    ensures items[from..to][a - from..b + 1 - from] == items[a..b] + [items[b]]
  {
    var part, i, n := items[from..to], a - from, b + 1 - a;
    assert forall k :: 0 <= k < |part| ==> part[k] == items[from + k];
    var slice := part[i..i + n];
    assert forall k :: 0 <= k < n ==> slice[k] == part[i + k];
    assert slice == items[a..b] + [items[b]];
  }

  /** A batch of `other` that starts no later and ends later than the j-th batch contains that batch
      and the next item, so the two together are legal. */
  lemma {:induction false} OvertakingIsLegal(batches: seq<seq<Item>>, other: seq<seq<Item>>, items: seq<Item>,
                                             budget: real, j: nat)
    requires LegalSplit(batches, items, budget) && LegalSplit(other, items, budget)
    requires j < |batches| && j < |other|
    requires End(other, j) <= End(batches, j) && End(batches, j + 1) < End(other, j + 1)
    ensures j + 1 < |batches| && batches[j + 1] != [] && Legal(batches[j] + [batches[j + 1][0]], budget)
  {
    hide Flatten, Legal, End, LegalSplit;
    SplitFlattens(batches, items, budget);
    SplitFlattens(other, items, budget);
    BatchBetweenEnds(batches, items, j);
    BatchBetweenEnds(other, items, j);
    NextBatchStarts(batches, items, budget, j);
    var from, to := End(other, j), End(other, j + 1);
    var a, b := End(batches, j), End(batches, j + 1);
    OneMoreItem(items, from, to, a, b);
    NonEmpty(other, items, budget, j);
    assert other[j][a - from..b + 1 - from] == batches[j] + [batches[j + 1][0]];
    PartIsLegal(other[j], a - from, b + 1 - from, budget);
  }

  /** After as many batches, a tight split has come at least as far as any other legal split. */
  lemma {:induction false} TightStaysAhead(tight: seq<seq<Item>>, other: seq<seq<Item>>, items: seq<Item>,
                                           budget: real, j: nat)
    requires LegalSplit(tight, items, budget) && Tight(tight, budget) && LegalSplit(other, items, budget)
    requires j <= |tight| && j <= |other|
    ensures End(other, j) <= End(tight, j)
  {
    if j > 0 {
      TightStaysAhead(tight, other, items, budget, j - 1);
      if End(other, j) > End(tight, j) {
        OvertakingIsLegal(tight, other, items, budget, j - 1);
        assert false;
      }
    }
  }

  lemma {:induction false} SplitFlattens(batches: seq<seq<Item>>, items: seq<Item>, budget: real)
    requires LegalSplit(batches, items, budget)
    ensures Flatten(batches) == items
  {
  }

  lemma {:induction false} NonEmpty(batches: seq<seq<Item>>, items: seq<Item>, budget: real, j: nat)
    requires LegalSplit(batches, items, budget) && j < |batches|
    ensures batches[j] != [] && Legal(batches[j], budget)
  {
  }

  lemma {:induction false} NextBatchStarts(batches: seq<seq<Item>>, items: seq<Item>, budget: real, j: nat)
    requires LegalSplit(batches, items, budget) && j < |batches|
    requires End(batches, j + 1) < |items|
    ensures j + 1 < |batches| && batches[j + 1] != [] && batches[j + 1][0] == items[End(batches, j + 1)]
  {
    FullEnd(batches, items, budget);
    if j + 1 < |batches| {
      BatchBetweenEnds(batches, items, j + 1);
    }
  }

  lemma {:induction false} TightIsOptimal(tight: seq<seq<Item>>, other: seq<seq<Item>>, items: seq<Item>, budget: real)
    requires LegalSplit(tight, items, budget) && Tight(tight, budget) && LegalSplit(other, items, budget)
    ensures |tight| <= |other|
  {
    FullEnd(other, items, budget);
    if |other| < |tight| {
      TightStaysAhead(tight, other, items, budget, |other|);
      BatchBetweenEnds(tight, items, |other|);
      NonEmpty(tight, items, budget, |other|);
      assert false;
    }
  }

  lemma {:induction false} FullEnd(batches: seq<seq<Item>>, items: seq<Item>, budget: real)
    requires LegalSplit(batches, items, budget)
    ensures End(batches, |batches|) == |items|
  {
    assert batches[..|batches|] == batches;
  }
}
