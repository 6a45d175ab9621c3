/**
 Choosing one translation among several for the same source text.  The Android and the Apple script
 each have their own chooser (scripts/android-app-i18n.ts, scripts/apple-app-i18n.ts).
*/
module TranslationChoice {
  import opened Sequences
  import opened Text

  datatype Tally = Tally(value: string, count: nat)

  /** Each value with its number of occurrences, in the order the values are first seen. */
  function Tallies(values: seq<string>): seq<Tally> {
    var keys := Distinct(values);
    seq(|keys|, i requires 0 <= i < |keys| => Tally(keys[i], Occurrences(values, keys[i])))
  }

  /** More frequent first, then in text order. */
  predicate Ahead(a: Tally, b: Tally) {
    a.count > b.count || (a.count == b.count && Less(a.value, b.value))
  }

  /** The source text itself behind everything else. */
  predicate AheadOfSource(source: string, a: Tally, b: Tally) {
    (a.value != source && b.value == source)
    || ((a.value == source <==> b.value == source) && Ahead(a, b))
  }

  function ChooseTranslation(source: string, translations: seq<string>): string {
    if translations == [] then source
    else
      var sorted := Sort(Tallies(translations), (a: Tally, b: Tally) => AheadOfSource(source, a, b));
      if sorted == [] then source else sorted[0].value
  }

  function SelectDeterministicTranslation(source: string, values: seq<string>): string {
    var translated := Filter(values, v => v != source);
    var candidates := if |translated| > 0 then translated else values;
    var sorted := Sort(Tallies(candidates), (a: Tally, b: Tally) => Ahead(a, b));
    if sorted == [] then "" else sorted[0].value
  }

  // ---------------------------------------------------------------------------------------
  // The choosers as the program runs them

  /** The map counts the values; `keys` is its key order. */
  ghost predicate Counts(counts: map<string, nat>, keys: seq<string>, values: seq<string>) {
    && keys == Distinct(values)
    && (forall v :: v in counts <==> v in keys)
    && (forall v :: v in counts ==> counts[v] == Occurrences(values, v))
  }

  lemma {:induction false} NothingCounted()
    ensures Counts(map[], [], [])
  {
  }

  lemma {:induction false} CountOneMore(counts: map<string, nat>, keys: seq<string>, values: seq<string>, i: nat)
    requires i < |values| && Counts(counts, keys, values[..i])
    ensures var seen := values[i] in counts;
            Counts(counts[values[i] := (if seen then counts[values[i]] else 0) + 1],
                   if seen then keys else keys + [values[i]], values[..i + 1])
  {
    hide Distinct;
    DistinctStep(values, i);
    DistinctCounts(values[..i], values[i]);
  }

  /** The loop both share. */
  method CountValues(values: seq<string>) returns (counts: map<string, nat>, keys: seq<string>)
    ensures Counts(counts, keys, values)
  {
    hide Counts;
    counts, keys := map[], [];
    NothingCounted();
    assert values[..0] == [];
    for i := 0 to |values|
      invariant Counts(counts, keys, values[..i])
    {
      var value := values[i];
      CountOneMore(counts, keys, values, i);
      var seen := value in counts;
      counts := counts[value := (if seen then counts[value] else 0) + 1];
      if !seen {
        keys := keys + [value];
      }
    }
    assert values[..|values|] == values;
  }

  function Entries(counts: map<string, nat>, keys: seq<string>): seq<Tally>
    requires forall v :: v in keys ==> v in counts
  {
    seq(|keys|, i requires 0 <= i < |keys| => Tally(keys[i], counts[keys[i]]))
  }

  method ChooseAppleTranslation(source: string, translations: seq<string>) returns (r: string)
    ensures r == ChooseTranslation(source, translations)
  {
    var counts, keys := CountValues(translations);
    var sorted := Sort(Entries(counts, keys), (a: Tally, b: Tally) => AheadOfSource(source, a, b));
    assert Entries(counts, keys) == Tallies(translations);
    r := if sorted == [] then source else sorted[0].value;
  }

  method ChooseAndroidTranslation(source: string, values: seq<string>) returns (r: string)
    ensures r == SelectDeterministicTranslation(source, values)
  {
    var translated := Filter(values, v => v != source);
    var candidates := if |translated| > 0 then translated else values;
    var counts, keys := CountValues(candidates);
    var sorted := Sort(Entries(counts, keys), (a: Tally, b: Tally) => Ahead(a, b));
    assert Entries(counts, keys) == Tallies(candidates);
    r := if sorted == [] then "" else sorted[0].value;
  }

  // ---------------------------------------------------------------------------------------
  // What is chosen

  /** `a` is a better choice than `b` among `values`: anything is better than the source text; otherwise
      the more frequent of the two, and of two equally frequent ones the first in text order. */
  predicate Better(source: string, values: seq<string>, a: string, b: string) {
    var often, seldom := Occurrences(values, a), Occurrences(values, b);
    a != source && (b == source || often > seldom || (often == seldom && Less(a, b)))
  }

  /** `r` is one of the values and better than every other one. */
  ghost predicate IsChoice(source: string, values: seq<string>, r: string) {
    r in values && forall v :: v in values && v != r ==> Better(source, values, r, v)
  }

  lemma {:induction false} AheadIsOrder()
    ensures StrictOrder((a: Tally, b: Tally) => Ahead(a, b))
  {
    forall a: Tally, b: Tally
      ensures !Ahead(a, a) && (a != b ==> Ahead(a, b) || Ahead(b, a))
    {
      LessTotal(a.value, b.value);
    }
    forall a: Tally, b: Tally, c: Tally | Ahead(a, b) && Ahead(b, c)
      ensures Ahead(a, c)
    {
      if Less(a.value, b.value) && Less(b.value, c.value) {
        LessTransitive(a.value, b.value, c.value);
      }
    }
  }

  lemma {:induction false} AheadOfSourceIsOrder(source: string)
    ensures StrictOrder((a: Tally, b: Tally) => AheadOfSource(source, a, b))
  {
    AheadIsOrder();
    var ahead := (a: Tally, b: Tally) => Ahead(a, b);
    forall a: Tally, b: Tally
      ensures !AheadOfSource(source, a, a) && (a != b ==> AheadOfSource(source, a, b) || AheadOfSource(source, b, a))
    {
      assert !ahead(a, a) && (a != b ==> ahead(a, b) || ahead(b, a));
    }
    forall a: Tally, b: Tally, c: Tally | AheadOfSource(source, a, b) && AheadOfSource(source, b, c)
      ensures AheadOfSource(source, a, c)
    {
      assert ahead(a, b) && ahead(b, c) ==> ahead(a, c);
    }
  }

  /** The first of the sorted tallies is ahead of every other value. */
  lemma {:induction false} FirstIsAhead(values: seq<string>, before: (Tally, Tally) -> bool)
    requires values != [] && StrictOrder(before)
    ensures var sorted := Sort(Tallies(values), before);
            && sorted != [] && sorted[0].value in values
            && sorted[0].count == Occurrences(values, sorted[0].value)
            && forall v :: v in values && v != sorted[0].value ==> before(sorted[0], Tally(v, Occurrences(values, v)))
  {
    var tallies := Tallies(values);
    var sorted := Sort(tallies, before);
    SortSorts(tallies, before);
    hide Sort;
    forall v | v in values ensures Tally(v, Occurrences(values, v)) in sorted {
      DistinctCounts(values, v);
      TallyOf(values, v);
      SameElements(tallies, sorted, Tally(v, Occurrences(values, v)));
    }
    assert values[0] in values;
    assert sorted[0] in sorted;
    SameElements(tallies, sorted, sorted[0]);
    DistinctCounts(values, sorted[0].value);
    forall v | v in values && v != sorted[0].value
      ensures before(sorted[0], Tally(v, Occurrences(values, v)))
    {
      var j :| 0 <= j < |sorted| && sorted[j] == Tally(v, Occurrences(values, v));
    }
  }

  lemma {:induction false} TallyOf(values: seq<string>, v: string)
    requires v in Distinct(values)
    ensures Tally(v, Occurrences(values, v)) in Tallies(values)
  {
    var keys := Distinct(values);
    var i :| 0 <= i < |keys| && keys[i] == v;
    assert Tallies(values)[i] == Tally(v, Occurrences(values, v));
  }

  lemma {:induction false} AppleChooses(source: string, values: seq<string>)
    requires values != []
    ensures IsChoice(source, values, ChooseTranslation(source, values))
  {
    AheadOfSourceIsOrder(source);
    FirstIsAhead(values, (a: Tally, b: Tally) => AheadOfSource(source, a, b));
  }

  lemma {:induction false} AndroidChooses(source: string, values: seq<string>)
    requires values != []
    ensures IsChoice(source, values, SelectDeterministicTranslation(source, values))
  {
    var translated := Filter(values, v => v != source);
    var candidates := if |translated| > 0 then translated else values;
    AheadIsOrder();
    FirstIsAhead(candidates, (a: Tally, b: Tally) => Ahead(a, b));
    forall v | v in candidates ensures Occurrences(candidates, v) == Occurrences(values, v) {
      FilterCounts(values, v => v != source, v);
    }
    var r := SelectDeterministicTranslation(source, values);
    forall v | v in values && v != r
      ensures Better(source, values, r, v)
    {
      if v != source {
        assert v in translated;
      } else if |translated| > 0 {
        assert r in translated;
      }
    }
  }

  /** There is only one choice, and it depends on the values only as a multiset. */
  lemma {:induction false} ChoiceIsUnique(source: string, a: seq<string>, b: seq<string>, r: string, s: string)
    requires multiset(a) == multiset(b) && IsChoice(source, a, r) && IsChoice(source, b, s)
    ensures r == s
  {
    SameElements(a, b, r);
    SameElements(a, b, s);
    LessTotal(r, s);
  }

  /** The two choosers agree on every nonempty list, whatever its order, and fall back to the source
      text only when nothing else is offered. */
  lemma {:induction false} ChoosersAgree(source: string, a: seq<string>, b: seq<string>)
    requires a != [] && multiset(a) == multiset(b)
    ensures SelectDeterministicTranslation(source, a) == ChooseTranslation(source, b)
    ensures ChooseTranslation(source, a) == ChooseTranslation(source, b)
    ensures ChooseTranslation(source, a) == source <==> forall v :: v in a ==> v == source
  {
    assert a[0] in multiset(b);
    AndroidChooses(source, a);
    AppleChooses(source, a);
    AppleChooses(source, b);
    ChoiceIsUnique(source, a, b, SelectDeterministicTranslation(source, a), ChooseTranslation(source, b));
    ChoiceIsUnique(source, a, b, ChooseTranslation(source, a), ChooseTranslation(source, b));
    LessTotal(source, source);
  }

  /** On the empty list they differ. */
  lemma {:induction false} ChoosersOnNothing(source: string)
    ensures SelectDeterministicTranslation(source, []) == "" && ChooseTranslation(source, []) == source
  {
  }
}
