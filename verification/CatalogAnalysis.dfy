/**
 Comparing locale catalogs with the English catalog (scripts/control-ui-i18n-verify.ts).  A catalog is
 a map with its keys in insertion order; comparing locale names is a parameter.
*/
module CatalogAnalysis {
  import opened Sequences
  import opened Placeholders

  datatype Flat = Flat(keys: seq<string>, texts: map<string, string>)

  datatype Locale = Locale(name: string, flat: Flat)

  /** The keys of a map: each once, and all of them. */
  ghost predicate Valid(f: Flat) {
    && (forall i, j :: 0 <= i < j < |f.keys| ==> f.keys[i] != f.keys[j])
    && (forall k :: k in f.keys <==> k in f.texts)
  }

  datatype Finding =
    | OrphanKeys(locale: string, keys: seq<string>)
    | NotInOrder(locale: string)
    | Mismatch(locale: string, key: string)

  // ---------------------------------------------------------------------------------------
  // The findings as functions

  function Orphans(source: Flat, flat: Flat): seq<string> {
    Filter(flat.keys, k => k !in source.texts)
  }

  function ExpectedOrder(source: Flat, flat: Flat): seq<string> {
    Filter(source.keys, k => k in flat.texts)
  }

  function ActualOrder(source: Flat, flat: Flat): seq<string> {
    Filter(flat.keys, k => k in source.texts)
  }

  predicate SamePlaceholders(source: Flat, flat: Flat, key: string) {
    key in source.texts && key in flat.texts ==> Extract(source.texts[key]) == Extract(flat.texts[key])
  }

  function Mismatches(source: Flat, locale: Locale, keys: seq<string>): seq<Finding> {
    if keys == [] then [] else
      var n := |keys| - 1;
      Mismatches(source, locale, keys[..n])
      + if SamePlaceholders(source, locale.flat, keys[n]) then [] else [Mismatch(locale.name, keys[n])]
  }

  function FindingsFor(source: Flat, locale: Locale): seq<Finding> {
    var orphans := Orphans(source, locale.flat);
    (if |orphans| > 0 then [OrphanKeys(locale.name, orphans)] else [])
    + (if ActualOrder(source, locale.flat) != ExpectedOrder(source, locale.flat) then [NotInOrder(locale.name)] else [])
    + Mismatches(source, locale, source.keys)
  }

  function Findings(source: Flat, locales: seq<Locale>): seq<Finding> {
    if locales == [] then [] else
      Findings(source, locales[..|locales| - 1]) + FindingsFor(source, locales[|locales| - 1])
  }

  /** The locales without a text for `key`. */
  function MissingIn(locales: seq<Locale>, key: string): seq<string> {
    if locales == [] then [] else
      var last := locales[|locales| - 1];
      MissingIn(locales[..|locales| - 1], key) + if key in last.flat.texts then [] else [last.name]
  }

  function Listed(fallbacks: map<string, seq<string>>, key: string): seq<string> {
    if key in fallbacks then fallbacks[key] else []
  }

  ghost predicate OnlySourceKeys(fallbacks: map<string, seq<string>>, source: Flat) {
    forall key :: key in fallbacks ==> key in source.keys && fallbacks[key] != []
  }

  /** `fallbacks` lists for every source key the locales that miss it. */
  ghost predicate Lists(fallbacks: map<string, seq<string>>, source: Flat, locales: seq<Locale>) {
    OnlySourceKeys(fallbacks, source)
    && forall key :: key in source.keys ==> Listed(fallbacks, key) == MissingIn(locales, key)
  }

  // ---------------------------------------------------------------------------------------
  // The analysis as the program runs it

  function Missed(locale: Locale, key: string): seq<string> {
    if key in locale.flat.texts then [] else [locale.name]
  }

  /** One locale has been looked at for the first n source keys. */
  ghost predicate ListsUpTo(fallbacks: map<string, seq<string>>, before: map<string, seq<string>>, source: Flat,
                            locale: Locale, n: nat)
    requires n <= |source.keys|
  {
    && OnlySourceKeys(fallbacks, source)
    && forall i :: 0 <= i < |source.keys| ==>
         Listed(fallbacks, source.keys[i])
         == if i < n then Listed(before, source.keys[i]) + Missed(locale, source.keys[i])
            else Listed(before, source.keys[i])
  }

  lemma {:induction false} ListsNothing(before: map<string, seq<string>>, source: Flat, locale: Locale)
    requires OnlySourceKeys(before, source)
    ensures ListsUpTo(before, before, source, locale, 0)
  {
  }

  lemma {:induction false} KeyPresent(fallbacks: map<string, seq<string>>, before: map<string, seq<string>>,
                                      source: Flat, locale: Locale, i: nat)
    requires i < |source.keys| && ListsUpTo(fallbacks, before, source, locale, i) && source.keys[i] in locale.flat.texts
    ensures ListsUpTo(fallbacks, before, source, locale, i + 1)
  {
    hide Listed, OnlySourceKeys;
  }

  lemma {:induction false} ListedOther(fallbacks: map<string, seq<string>>, key: string, names: seq<string>,
                                       other: string)
    ensures Listed(fallbacks[key := names], other) == if other == key then names else Listed(fallbacks, other)
  {
  }

  lemma {:induction false} OtherKeys(source: Flat, i: nat)
    requires Valid(source) && i < |source.keys|
    ensures forall j :: 0 <= j < |source.keys| && j != i ==> source.keys[j] != source.keys[i]
  {
  }

  lemma {:induction false} KeyMissing(fallbacks: map<string, seq<string>>, before: map<string, seq<string>>,
                                      source: Flat, locale: Locale, i: nat)
    requires Valid(source) && i < |source.keys| && ListsUpTo(fallbacks, before, source, locale, i)
    requires source.keys[i] !in locale.flat.texts
    ensures ListsUpTo(fallbacks[source.keys[i] := Listed(fallbacks, source.keys[i]) + [locale.name]],
                      before, source, locale, i + 1)
  {
    var key := source.keys[i];
    var names := Listed(fallbacks, key) + [locale.name];
    OtherKeys(source, i);
    hide Valid;
    KeyAdded(fallbacks, source, i, names);
    hide Listed, OnlySourceKeys;
    forall j | 0 <= j < |source.keys|
      ensures Listed(fallbacks[key := names], source.keys[j])
              == if j < i + 1 then Listed(before, source.keys[j]) + Missed(locale, source.keys[j])
                 else Listed(before, source.keys[j])
    {
      ListedOther(fallbacks, key, names, source.keys[j]);
    }
  }

  lemma {:induction false} KeyAdded(fallbacks: map<string, seq<string>>, source: Flat, i: nat, names: seq<string>)
    requires OnlySourceKeys(fallbacks, source) && i < |source.keys| && names != []
    ensures OnlySourceKeys(fallbacks[source.keys[i] := names], source)
  {
    assert source.keys[i] in source.keys;
  }

  method CompareTexts(source: Flat, locale: Locale, before: map<string, seq<string>>)
    returns (errors: seq<Finding>, fallbacks: map<string, seq<string>>)
    requires Valid(source)
    requires OnlySourceKeys(before, source)
    ensures errors == Mismatches(source, locale, source.keys)
    ensures ListsUpTo(fallbacks, before, source, locale, |source.keys|)
  {
    errors := [];
    fallbacks := before;
    ListsNothing(before, source, locale);
    for i := 0 to |source.keys|
      invariant errors == Mismatches(source, locale, source.keys[..i])
      invariant ListsUpTo(fallbacks, before, source, locale, i)
    {
      hide Extract, ListsUpTo, Valid, OnlySourceKeys, Mismatches;
      MismatchStep(source, locale, i);
      var key := source.keys[i];
      if key !in locale.flat.texts {
        KeyMissing(fallbacks, before, source, locale, i);
        fallbacks := fallbacks[key := Listed(fallbacks, key) + [locale.name]];
        continue;
      }
      KeyPresent(fallbacks, before, source, locale, i);
      if Extract(source.texts[key]) != Extract(locale.flat.texts[key]) {
        errors := errors + [Mismatch(locale.name, key)];
      }
    }
    assert source.keys[..|source.keys|] == source.keys;
  }

  method AnalyzeLocale(source: Flat, locale: Locale, before: map<string, seq<string>>)
    returns (errors: seq<Finding>, fallbacks: map<string, seq<string>>)
    requires Valid(source)
    requires OnlySourceKeys(before, source)
    ensures errors == FindingsFor(source, locale)
    ensures ListsUpTo(fallbacks, before, source, locale, |source.keys|)
  {
    hide Mismatches, ListsUpTo, Valid, OnlySourceKeys, Filter;
    errors := [];
    var orphanKeys := Filter(locale.flat.keys, k => k !in source.texts);
    if |orphanKeys| > 0 {
      errors := errors + [OrphanKeys(locale.name, orphanKeys)];
    }
    var expectedPresentOrder := Filter(source.keys, k => k in locale.flat.texts);
    var actualPresentOrder := Filter(locale.flat.keys, k => k in source.texts);
    if actualPresentOrder != expectedPresentOrder {
      errors := errors + [NotInOrder(locale.name)];
    }
    var mismatches;
    mismatches, fallbacks := CompareTexts(source, locale, before);
    errors := errors + mismatches;
  }

  lemma {:induction false} MismatchStep(source: Flat, locale: Locale, i: nat)
    requires Valid(source) && i < |source.keys|
    ensures source.keys[i] in source.texts
    ensures Mismatches(source, locale, source.keys[..i + 1])
            == if SamePlaceholders(source, locale.flat, source.keys[i])
                 then Mismatches(source, locale, source.keys[..i])
               else Mismatches(source, locale, source.keys[..i]) + [Mismatch(locale.name, source.keys[i])]
  {
    assert source.keys[i] in source.keys;
    assert source.keys[..i + 1][..i] == source.keys[..i];
  }

  lemma {:induction false} MissingInOneMore(locales: seq<Locale>, n: nat, key: string)
    requires n < |locales|
    ensures MissingIn(locales[..n + 1], key) == MissingIn(locales[..n], key) + Missed(locales[n], key)
  {
    assert locales[..n + 1][..n] == locales[..n];
  }

  lemma {:induction false} ListedAfter(fallbacks: map<string, seq<string>>, before: map<string, seq<string>>,
                                       source: Flat,
                    locale: Locale, key: string)
    requires ListsUpTo(fallbacks, before, source, locale, |source.keys|) && key in source.keys
    ensures Listed(fallbacks, key) == Listed(before, key) + Missed(locale, key)
  {
    hide Listed, Missed, OnlySourceKeys;
    var i :| 0 <= i < |source.keys| && source.keys[i] == key;
  }

  lemma {:induction false} ListsOneMore(fallbacks: map<string, seq<string>>, before: map<string, seq<string>>,
                                        source: Flat,
                     locales: seq<Locale>, n: nat)
    requires n < |locales| && Lists(before, source, locales[..n])
    requires ListsUpTo(fallbacks, before, source, locales[n], |source.keys|)
    ensures Lists(fallbacks, source, locales[..n + 1])
  {
    hide Listed, Missed, OnlySourceKeys, MissingIn;
    forall key | key in source.keys
      ensures Listed(fallbacks, key) == MissingIn(locales[..n + 1], key)
    {
      hide ListsUpTo;
      ListedAfter(fallbacks, before, source, locales[n], key);
      MissingInOneMore(locales, n, key);
    }
  }

  lemma {:induction false} FindingsOneMore(source: Flat, locales: seq<Locale>, n: nat)
    requires n < |locales|
    ensures Findings(source, locales[..n + 1]) == Findings(source, locales[..n]) + FindingsFor(source, locales[n])
  {
    hide FindingsFor;
    assert locales[..n + 1][..n] == locales[..n];
  }

  lemma {:induction false} NothingListed(source: Flat)
    ensures Lists(map[], source, []) && Findings(source, []) == []
  {
  }

  /** The loop over the locales. */
  method AnalyzeLocales(source: Flat, locales: seq<Locale>)
    returns (errors: seq<Finding>, fallbacks: map<string, seq<string>>)
    requires Valid(source)
    ensures errors == Findings(source, locales) && Lists(fallbacks, source, locales)
  {
    hide Lists, ListsUpTo, OnlySourceKeys, FindingsFor, Findings, Valid;
    errors, fallbacks := [], map[];
    NothingListed(source);
    assert locales[..0] == [];
    for n := 0 to |locales|
      invariant errors == Findings(source, locales[..n])
      invariant Lists(fallbacks, source, locales[..n])
    {
      ListsKeys(fallbacks, source, locales[..n]);
      var found, more := AnalyzeLocale(source, locales[n], fallbacks);
      FindingsOneMore(source, locales, n);
      ListsOneMore(more, fallbacks, source, locales, n);
      errors := errors + found;
      fallbacks := more;
    }
    assert locales[..|locales|] == locales;
  }

  method AnalyzeControlUiCatalogs(source: Flat, localeFlats: seq<Locale>, before: (string, string) -> bool)
    returns (errors: seq<Finding>, fallbacks: map<string, seq<string>>)
    requires Valid(source)
    ensures var sorted := Sort(localeFlats, (a: Locale, b: Locale) => before(a.name, b.name));
            && errors == Findings(source, sorted)
            && (forall key :: key in fallbacks <==> key in source.keys && MissingIn(sorted, key) != [])
            && (forall key :: key in fallbacks ==> fallbacks[key] == Sort(MissingIn(sorted, key), before))
  {
    hide Lists, MissingIn, Findings, Sort, Valid;
    var sorted := Sort(localeFlats, (a: Locale, b: Locale) => before(a.name, b.name));
    var fallbackLocalesByKey;
    errors, fallbackLocalesByKey := AnalyzeLocales(source, sorted);
    ListsMissing(fallbackLocalesByKey, source, sorted);
    fallbacks := map key | key in fallbackLocalesByKey :: Sort(fallbackLocalesByKey[key], before);
  }

  lemma {:induction false} ListsMissing(fallbacks: map<string, seq<string>>, source: Flat, locales: seq<Locale>)
    requires Lists(fallbacks, source, locales)
    ensures forall key :: key in fallbacks <==> key in source.keys && MissingIn(locales, key) != []
    ensures forall key :: key in fallbacks ==> fallbacks[key] == MissingIn(locales, key)
  {
    hide MissingIn;
  }

  lemma {:induction false} ListsKeys(fallbacks: map<string, seq<string>>, source: Flat, locales: seq<Locale>)
    requires Lists(fallbacks, source, locales)
    ensures OnlySourceKeys(fallbacks, source)
  {
  }

  // ---------------------------------------------------------------------------------------
  // The analysis is exact

  lemma {:induction false} MissingExactly(locales: seq<Locale>, key: string, name: string)
    ensures name in MissingIn(locales, key) <==>
              exists i :: 0 <= i < |locales| && locales[i].name == name && key !in locales[i].flat.texts
  {
    if locales != [] {
      var n := |locales| - 1;
      MissingExactly(locales[..n], key, name);
      assert MissingIn(locales, key) == MissingIn(locales[..n], key) + Missed(locales[n], key);
      hide MissingIn;
      if i :| 0 <= i < |locales| && locales[i].name == name && key !in locales[i].flat.texts {
        assert i < n ==> locales[..n][i] == locales[i];
      }
      if i :| 0 <= i < n && locales[..n][i].name == name && key !in locales[..n][i].flat.texts {
        assert locales[i] == locales[..n][i];
      }
    }
  }

  /** The fallbacks reported are precisely the pairs of a source key and a locale that misses it,
      whatever order the locales come in. */
  lemma {:induction false} FallbacksAreExact(source: Flat, locales: seq<Locale>, before: (string, string) -> bool,
                                             key: string, name: string)
    ensures var sorted := Sort(locales, (a: Locale, b: Locale) => before(a.name, b.name));
            name in Sort(MissingIn(sorted, key), before) <==>
              exists locale :: locale in locales && locale.name == name && key !in locale.flat.texts
  {
    var sorted := Sort(locales, (a: Locale, b: Locale) => before(a.name, b.name));
    hide Sort;
    SameElements(MissingIn(sorted, key), Sort(MissingIn(sorted, key), before), name);
    MissingExactly(sorted, key, name);
    if locale :| locale in locales && locale.name == name && key !in locale.flat.texts {
      SameElements(locales, sorted, locale);
      var i :| 0 <= i < |sorted| && sorted[i] == locale;
    }
    if i :| 0 <= i < |sorted| && sorted[i].name == name && key !in sorted[i].flat.texts {
      assert sorted[i] in sorted;
      SameElements(locales, sorted, sorted[i]);
    }
  }

  /** A locale is clean: its keys are the English keys with the missing ones deleted, in the same
      order, and every text has the placeholders of the English one. */
  ghost predicate Clean(source: Flat, flat: Flat) {
    && flat.keys == Filter(source.keys, k => k in flat.texts)
    && forall k :: k in flat.keys && k in source.texts ==> Extract(source.texts[k]) == Extract(flat.texts[k])
  }

  lemma {:induction false} FilterAll<T(!new)>(s: seq<T>, keep: T -> bool)
    requires forall x :: x in s ==> keep(x)
    ensures Filter(s, keep) == s
  {
    if s != [] {
      var n := |s| - 1;
      assert s == s[..n] + [s[n]];
      FilterAll(s[..n], keep);
    }
  }

  lemma {:induction false} FilterNone<T(!new)>(s: seq<T>, keep: T -> bool)
    ensures Filter(s, keep) == [] <==> forall x :: x in s ==> !keep(x)
  {
    if s != [] {
      var n := |s| - 1;
      assert s == s[..n] + [s[n]];
      FilterNone(s[..n], keep);
    }
  }

  lemma {:induction false} NoMismatch(source: Flat, locale: Locale, keys: seq<string>)
    ensures Mismatches(source, locale, keys) == []
            <==> forall k :: k in keys ==> SamePlaceholders(source, locale.flat, k)
  {
    if keys != [] {
      hide SamePlaceholders;
      var n := |keys| - 1;
      assert keys == keys[..n] + [keys[n]];
      NoMismatch(source, locale, keys[..n]);
    }
  }

  lemma {:induction false} NoFindings(source: Flat, locale: Locale)
    requires Valid(source) && Valid(locale.flat)
    ensures FindingsFor(source, locale) == [] <==> Clean(source, locale.flat)
  {
    hide Extract, Filter, Mismatches;
    var flat := locale.flat;
    FilterNone(flat.keys, k => k !in source.texts);
    NoMismatch(source, locale, source.keys);
    if forall k :: k in flat.keys ==> k in source.texts {
      FilterAll(flat.keys, k => k in source.texts);
    }
  }

  /** There is no finding exactly when every locale is clean. */
  lemma {:induction false} AnalysisIsExact(source: Flat, locales: seq<Locale>)
    requires Valid(source) && forall i :: 0 <= i < |locales| ==> Valid(locales[i].flat)
    ensures Findings(source, locales) == [] <==> forall i :: 0 <= i < |locales| ==> Clean(source, locales[i].flat)
  {
    if locales != [] {
      hide FindingsFor, Clean, Valid;
      var n := |locales| - 1;
      AnalysisIsExact(source, locales[..n]);
      NoFindings(source, locales[n]);
      assert forall i :: 0 <= i < n ==> locales[..n][i] == locales[i];
    }
  }

  /** The analysis sorts the locales first; which ones are clean does not depend on that. */
  lemma {:induction false} NoErrorsExactlyWhenClean(source: Flat, locales: seq<Locale>,
                                                    before: (string, string) -> bool)
    requires Valid(source) && forall locale :: locale in locales ==> Valid(locale.flat)
    ensures Findings(source, Sort(locales, (a: Locale, b: Locale) => before(a.name, b.name))) == []
            <==> forall locale :: locale in locales ==> Clean(source, locale.flat)
  {
    hide Sort, Findings, Clean, Valid;
    var sorted := Sort(locales, (a: Locale, b: Locale) => before(a.name, b.name));
    forall locale: Locale
      ensures locale in locales <==> locale in sorted
    {
      SameElements(locales, sorted, locale);
    }
    assert forall i :: 0 <= i < |sorted| ==> sorted[i] in sorted;
    AnalysisIsExact(source, sorted);
  }

  // ---------------------------------------------------------------------------------------
  // Which findings there are

  /** x stands before y. */
  ghost predicate Precedes<T>(s: seq<T>, x: T, y: T) {
    exists i, j :: 0 <= i < j < |s| && s[i] == x && s[j] == y
  }

  lemma {:induction false} PrecedesLast<T>(s: seq<T>, z: T, x: T, y: T)
    ensures Precedes(s + [z], x, y) <==> Precedes(s, x, y) || (x in s && y == z)
  {
    var more := s + [z];
    assert forall i :: 0 <= i < |s| ==> more[i] == s[i];
    assert more[|s|] == z;
    if x in s && y == z {
      var i :| 0 <= i < |s| && s[i] == x;
      assert more[i] == x && more[|s|] == y;
    }
    if i, j :| 0 <= i < j < |s| && s[i] == x && s[j] == y {
      assert more[i] == x && more[j] == y;
    }
  }

  /** Filtering keeps the order. */
  lemma {:induction false} FilterPrecedes<T(!new)>(s: seq<T>, keep: T -> bool, x: T, y: T)
    ensures Precedes(Filter(s, keep), x, y) <==> Precedes(s, x, y) && keep(x) && keep(y)
  {
    if s != [] {
      var shorter, last := s[..|s| - 1], s[|s| - 1];
      FilterPrecedes(shorter, keep, x, y);
      assert s == shorter + [last];
      PrecedesLast(shorter, last, x, y);
      PrecedesLast(Filter(shorter, keep), last, x, y);
      hide Precedes;
    }
  }

  predicate NoRepeats<T(==)>(s: seq<T>) {
    forall i, j :: 0 <= i < j < |s| ==> s[i] != s[j]
  }

  lemma {:induction false} FilterNoRepeats<T(!new)>(s: seq<T>, keep: T -> bool)
    requires NoRepeats(s)
    ensures NoRepeats(Filter(s, keep))
  {
    if s != [] {
      FilterNoRepeats(s[..|s| - 1], keep);
    }
  }

  /** Without repetition, sequences of the same elements differ exactly when two elements swap places. */
  lemma {:induction false} DifferBySwap<T(!new)>(a: seq<T>, b: seq<T>)
    requires NoRepeats(a) && NoRepeats(b) && forall x :: x in a <==> x in b
    ensures a != b <==> exists x, y :: Precedes(a, x, y) && Precedes(b, y, x)
  {
    if forall x, y :: Precedes(a, x, y) ==> !Precedes(b, y, x) {
      NoSwap(a, b);
    }
  }

  lemma {:induction false} NoSwap<T(!new)>(a: seq<T>, b: seq<T>)
    requires NoRepeats(a) && NoRepeats(b) && forall x :: x in a <==> x in b
    requires forall x, y :: Precedes(a, x, y) ==> !Precedes(b, y, x)
    ensures a == b
  {
    if b != [] {
      assert b[0] in b;
    }
    if a != [] {
      var n := |a| - 1;
      assert a[n] in b;
      var m := |b| - 1;
      var x, y := a[n], b[m];
      if x != y {
        assert y in a;
        var i :| 0 <= i < |a| && a[i] == y;
        var j :| 0 <= j < |b| && b[j] == x;
        assert Precedes(a, y, x) && Precedes(b, x, y);
      }
      forall z
        ensures z in a[..n] <==> z in a && z != x
        ensures z in b[..m] <==> z in b && z != y
      {
      }
      forall u, v | Precedes(a[..n], u, v)
        ensures !Precedes(b[..m], v, u)
      {
        PrecedesLast(a[..n], x, u, v);
        PrecedesLast(b[..m], y, v, u);
        assert a[..n] + [x] == a && b[..m] + [y] == b;
      }
      NoSwap(a[..n], b[..m]);
    }
  }

  /** What a finding says is so: the keys are those English lacks, in the locale's order; two keys have
      swapped places; the placeholders of a text differ. */
  ghost predicate IsFinding(source: Flat, locale: Locale, f: Finding)
    requires Valid(source) && Valid(locale.flat)
  {
    var flat := locale.flat;
    f.locale == locale.name &&
    match f
    case OrphanKeys(_, keys) =>
      && keys != [] && NoRepeats(keys)
      && (forall k :: k in keys <==> k in flat.keys && k !in source.keys)
      && forall j, k :: Precedes(keys, j, k) ==> Precedes(flat.keys, j, k)
    case NotInOrder(_) => exists j, k :: Precedes(source.keys, j, k) && Precedes(flat.keys, k, j)
    case Mismatch(_, k) =>
      k in source.keys && k in flat.keys && Extract(source.texts[k]) != Extract(flat.texts[k])
  }

  lemma {:induction false} NotBothWays<T>(s: seq<T>, x: T, y: T)
    requires NoRepeats(s)
    ensures !(Precedes(s, x, y) && Precedes(s, y, x))
  {
  }

  lemma {:induction false} OrphansAre(source: Flat, locale: Locale, keys: seq<string>)
    requires Valid(source) && Valid(locale.flat)
    ensures keys != [] && keys == Orphans(source, locale.flat)
            <==> IsFinding(source, locale, OrphanKeys(locale.name, keys))
  {
    var flat, orphans := locale.flat, Orphans(source, locale.flat);
    FilterNoRepeats(flat.keys, k => k !in source.texts);
    forall j, k
      ensures Precedes(orphans, j, k) <==> Precedes(flat.keys, j, k) && j !in source.keys && k !in source.keys
    {
      FilterPrecedes(flat.keys, k => k !in source.texts, j, k);
    }
    forall j, k {
      NotBothWays(flat.keys, j, k);
    }
    hide Filter, Precedes, NoRepeats;
    if IsFinding(source, locale, OrphanKeys(locale.name, keys)) {
      DifferBySwap(keys, orphans);
    }
  }

  lemma {:induction false} OrderIs(source: Flat, locale: Locale)
    requires Valid(source) && Valid(locale.flat)
    ensures ActualOrder(source, locale.flat) != ExpectedOrder(source, locale.flat)
            <==> IsFinding(source, locale, NotInOrder(locale.name))
  {
    var flat := locale.flat;
    var actual, expected := ActualOrder(source, flat), ExpectedOrder(source, flat);
    FilterNoRepeats(flat.keys, k => k in source.texts);
    FilterNoRepeats(source.keys, k => k in flat.texts);
    DifferBySwap(expected, actual);
    forall j, k
      ensures Precedes(expected, j, k) && Precedes(actual, k, j)
              <==> Precedes(source.keys, j, k) && Precedes(flat.keys, k, j)
    {
      FilterPrecedes(source.keys, k => k in flat.texts, j, k);
      FilterPrecedes(flat.keys, k => k in source.texts, k, j);
    }
  }

  lemma {:induction false} MismatchesAre(source: Flat, locale: Locale, keys: seq<string>, f: Finding)
    ensures f in Mismatches(source, locale, keys) <==>
              f.Mismatch? && f.locale == locale.name && f.key in keys && !SamePlaceholders(source, locale.flat, f.key)
  {
    if keys != [] {
      hide SamePlaceholders;
      var n := |keys| - 1;
      assert keys == keys[..n] + [keys[n]];
      MismatchesAre(source, locale, keys[..n], f);
    }
  }

  lemma {:induction false} FindingsForAre(source: Flat, locale: Locale, f: Finding)
    requires Valid(source) && Valid(locale.flat)
    ensures f in FindingsFor(source, locale) <==> IsFinding(source, locale, f)
  {
    hide Extract, Orphans, ActualOrder, ExpectedOrder, Mismatches;
    MismatchesAre(source, locale, source.keys, f);
    match f {
      case OrphanKeys(_, keys) => OrphansAre(source, locale, keys);
      case NotInOrder(_) => OrderIs(source, locale);
      case Mismatch(_, _) =>
    }
  }

  /** Exactly these findings are reported, for all the locales and in whatever order they come. */
  lemma {:induction false} FindingsAreExact(source: Flat, locales: seq<Locale>, before: (string, string) -> bool,
                                            f: Finding)
    requires Valid(source) && forall locale :: locale in locales ==> Valid(locale.flat)
    ensures f in Findings(source, Sort(locales, (a: Locale, b: Locale) => before(a.name, b.name)))
            <==> exists locale :: locale in locales && IsFinding(source, locale, f)
  {
    hide Sort, Findings, IsFinding, Valid;
    var sorted := Sort(locales, (a: Locale, b: Locale) => before(a.name, b.name));
    forall locale: Locale
      ensures locale in locales <==> locale in sorted
    {
      SameElements(locales, sorted, locale);
    }
    FindingsOf(source, sorted, f);
  }

  lemma {:induction false} FindingsOf(source: Flat, locales: seq<Locale>, f: Finding)
    requires Valid(source) && forall locale :: locale in locales ==> Valid(locale.flat)
    ensures f in Findings(source, locales) <==> exists locale :: locale in locales && IsFinding(source, locale, f)
  {
    if locales != [] {
      hide IsFinding, Valid, FindingsFor;
      var n := |locales| - 1;
      assert locales == locales[..n] + [locales[n]];
      FindingsOf(source, locales[..n], f);
      FindingsForAre(source, locales[n], f);
    }
  }
}
