/**
 What the Apple catalog build (scripts/apple-app-i18n.ts) puts into a catalog, in terms of its inputs:
 which sources there are, what each unit holds, and which contradictions are reported.
*/
module AppleCatalogContents {
  import opened Wrappers
  import opened Sequences
  import opened Text
  import opened TranslationChoice
  import opened AppleCatalog

  /** In text order, each text once. */
  predicate Ascending(s: seq<string>) {
    forall i, j :: 0 <= i < j < |s| ==> Less(s[i], s[j])
  }

  lemma {:induction false} OrderedMembers(values: seq<string>)
    ensures Ascending(Ordered(values))
    ensures forall v :: v in Ordered(values) <==> v in values
    ensures forall v :: Occurrences(Ordered(values), v) <= 1
  {
    var distinct := Distinct(values);
    var r := Ordered(values);
    BeforeIsOrder();
    SortSorts(distinct, Before);
    hide Distinct, Sort, Less;
    forall v
      ensures v in r <==> v in values
      ensures Occurrences(r, v) <= 1
    {
      DistinctCounts(values, v);
      SameElements(r, distinct, v);
    }
    forall i, j | 0 <= i < j < |r|
      ensures Less(r[i], r[j])
    {
      if r[i] == r[j] {
        TwoPlaces(r, i, j);
      } else {
        assert !Before(r[j], r[i]);
        LessTotal(r[i], r[j]);
      }
    }
  }

  // ---------------------------------------------------------------------------------------
  // Which sources

  /** The written form of the source of some entry that belongs to the catalog. */
  ghost predicate IsSource(rules: Rules, entries: seq<SourceEntry>, source: string) {
    exists e :: e in entries && rules.includes(e) && rules.written(e.source) == source
  }

  lemma {:induction false} SourcesAre(rules: Rules, entries: seq<SourceEntry>, source: string)
    ensures source in FlatMap(entries, e => SourceOf(rules, e)) <==> IsSource(rules, entries, source)
  {
    if entries != [] {
      var first, rest := entries[0], entries[1..];
      SourcesAre(rules, rest, source);
      assert forall e :: e in entries <==> e == first || e in rest;
    }
  }

  // ---------------------------------------------------------------------------------------
  // Which translations are offered

  /** The entries of the last artifact for the locale, none when there is no such artifact. */
  ghost predicate IsLastFor(artifacts: seq<Artifact>, locale: string, translations: seq<Translation>) {
    if exists i: nat :: IsLastAt(artifacts, locale, i)
    then exists i: nat :: IsLastAt(artifacts, locale, i) && artifacts[i].entries == translations
    else translations == []
  }

  predicate IsLastAt(artifacts: seq<Artifact>, locale: string, i: nat) {
    && i < |artifacts| && artifacts[i].locale == locale
    && forall j :: i < j < |artifacts| ==> artifacts[j].locale != locale
  }

  lemma {:induction false} LastForIs(artifacts: seq<Artifact>, locale: string, translations: seq<Translation>)
    ensures IsLastFor(artifacts, locale, translations) <==> translations == EntriesFor(artifacts, locale)
  {
    if artifacts != [] {
      var n := |artifacts| - 1;
      LastForIs(artifacts[..n], locale, translations);
      if artifacts[n].locale == locale {
        assert IsLastAt(artifacts, locale, n);
      } else {
        forall i: nat
          ensures IsLastAt(artifacts, locale, i) <==> IsLastAt(artifacts[..n], locale, i)
        {
          SameLast(artifacts, locale, i);
        }
      }
    } else {
      assert forall i: nat :: !IsLastAt(artifacts, locale, i);
    }
  }

  lemma {:induction false} SameLast(artifacts: seq<Artifact>, locale: string, i: nat)
    requires artifacts != [] && artifacts[|artifacts| - 1].locale != locale
    ensures IsLastAt(artifacts, locale, i) <==> IsLastAt(artifacts[..|artifacts| - 1], locale, i)
  {
    assert forall j :: 0 <= j < |artifacts| - 1 ==> artifacts[..|artifacts| - 1][j] == artifacts[j];
  }

  /** This translation is for this source and for the id of an entry with it, and reads `v`. */
  predicate Offers(rules: Rules, entries: seq<SourceEntry>, source: string, v: string, t: Translation) {
    && rules.written(t.source) == source && rules.written(t.translated) == v
    && exists e :: e in entries && rules.includes(e) && rules.written(e.source) == source && e.id == t.id
  }

  /** `candidates` holds each text as often as the translations offer it. */
  ghost predicate Offered(rules: Rules, entries: seq<SourceEntry>, translations: seq<Translation>, source: string,
                          candidates: seq<string>) {
    forall v :: Occurrences(candidates, v) == |Filter(translations, t => Offers(rules, entries, source, v, t))|
  }

  lemma {:induction false} CountCandidates(rules: Rules, entries: seq<SourceEntry>, translations: seq<Translation>,
                                           source: string, v: string)
    ensures Occurrences(FlatMap(translations, t => CandidateOf(rules, entries, source, t)), v)
            == |Filter(translations, t => Offers(rules, entries, source, v, t))|
  {
    if translations != [] {
      var n := |translations| - 1;
      assert translations[..n + 1] == translations;
      FlatMapLast(translations, n, t => CandidateOf(rules, entries, source, t));
      CountCandidates(rules, entries, translations[..n], source, v);
    }
  }

  lemma {:induction false} CandidatesAreOffered(rules: Rules, entries: seq<SourceEntry>, artifacts: seq<Artifact>,
                                                locale: string, source: string)
    ensures IsLastFor(artifacts, locale, EntriesFor(artifacts, locale))
    ensures Offered(rules, entries, EntriesFor(artifacts, locale), source,
                    Candidates(rules, entries, artifacts, locale, source))
  {
    LastForIs(artifacts, locale, EntriesFor(artifacts, locale));
    var translations := EntriesFor(artifacts, locale);
    forall v
      ensures Occurrences(Candidates(rules, entries, artifacts, locale, source), v)
              == |Filter(translations, t => Offers(rules, entries, source, v, t))|
    {
      CountCandidates(rules, entries, EntriesFor(artifacts, locale), source, v);
    }
  }

  // ---------------------------------------------------------------------------------------
  // What a unit holds

  /** The catalog that was there has a translated, nonempty value for this source and locale. */
  predicate IsTranslatedIn(existing: Catalog, source: string, locale: string) {
    && source in existing.strings && locale in existing.strings[source]
    && existing.strings[source][locale].state == Some("translated")
    && existing.strings[source][locale].value.Some? && existing.strings[source][locale].value.value != ""
  }

  /** The choice among the translations offered for this source and locale, the source itself when there are none. */
  ghost predicate IsChosen(rules: Rules, entries: seq<SourceEntry>, artifacts: seq<Artifact>, locale: string,
                           source: string, value: string) {
    exists translations, candidates ::
      && IsLastFor(artifacts, locale, translations) && Offered(rules, entries, translations, source, candidates)
      && if candidates == [] then value == source else IsChoice(source, candidates, value)
  }

  ghost predicate IsRightUnit(rules: Rules, existing: Catalog, entries: seq<SourceEntry>, artifacts: seq<Artifact>,
                              locale: string, source: string, unit: StringUnit) {
    if IsTranslatedIn(existing, source, locale) then unit == existing.strings[source][locale]
    else if locale == "en" then unit == StringUnit(Some("translated"), Some(source))
    else
      && unit.value.Some? && IsChosen(rules, entries, artifacts, locale, source, unit.value.value)
      && unit.state == Some(if unit.value.value != source then "translated" else "new")
  }

  lemma {:induction false} UnitIsRight(rules: Rules, existing: Catalog, entries: seq<SourceEntry>,
                                       artifacts: seq<Artifact>, locale: string, source: string)
    ensures IsRightUnit(rules, existing, entries, artifacts, locale, source,
                        UnitFor(ExistingUnit(existing, source, locale), locale, source,
                                Candidates(rules, entries, artifacts, locale, source)))
  {
    var candidates := Candidates(rules, entries, artifacts, locale, source);
    hide Candidates, ChooseTranslation, IsChoice, IsLastFor, Offered;
    CandidatesAreOffered(rules, entries, artifacts, locale, source);
    if candidates != [] {
      AppleChooses(source, candidates);
    } else {
      NothingToChoose(source);
    }
    assert IsChosen(rules, entries, artifacts, locale, source, ChooseTranslation(source, candidates));
  }

  lemma {:induction false} NothingToChoose(source: string)
    ensures ChooseTranslation(source, []) == source
  {
  }

  /** The catalog has exactly the sources of the entries that belong to it, in text order, and for each
      of them the required locales. */
  lemma {:induction false} CatalogCovers(rules: Rules, existing: Catalog, entries: seq<SourceEntry>,
                                         artifacts: seq<Artifact>)
    ensures var c := BuildCatalog(rules, existing, entries, artifacts).catalog;
            && Ascending(c.order)
            && (forall source :: source in c.order <==> IsSource(rules, entries, source))
            && (forall source :: source in c.strings <==> IsSource(rules, entries, source))
            && forall source, locale :: source in c.strings ==>
                 (locale in c.strings[source] <==> locale in rules.locales)
  {
    OrderedMembers(FlatMap(entries, e => SourceOf(rules, e)));
    forall source {
      SourcesAre(rules, entries, source);
    }
    hide UnitFor, Candidates, IsSource, Ascending, Ordered, FlatMap, Conflicts;
  }

  /** What the catalog holds for every source and required locale: an earlier translation is kept, English
      is the source, and otherwise the unit holds the choice among the translations offered, marked as
      translated exactly when it differs from the source. */
  lemma {:induction false} CatalogHolds(rules: Rules, existing: Catalog, entries: seq<SourceEntry>,
                                        artifacts: seq<Artifact>, locale: string, source: string)
    requires IsSource(rules, entries, source) && locale in rules.locales
    ensures var strings := BuildCatalog(rules, existing, entries, artifacts).catalog.strings;
            && source in strings && locale in strings[source]
            && IsRightUnit(rules, existing, entries, artifacts, locale, source, strings[source][locale])
  {
    CatalogCovers(rules, existing, entries, artifacts);
    UnitIsRight(rules, existing, entries, artifacts, locale, source);
    hide UnitFor, Candidates, IsSource, Ascending, Sources, Conflicts, IsRightUnit, ExistingUnit;
  }

  // ---------------------------------------------------------------------------------------
  // Which contradictions

  predicate IsOffered(rules: Rules, entries: seq<SourceEntry>, translations: seq<Translation>, source: string,
                      v: string) {
    exists t :: t in translations && Offers(rules, entries, source, v, t)
  }

  /** At least two different translations are offered, and these are all of them. */
  ghost predicate IsContradiction(rules: Rules, entries: seq<SourceEntry>, artifacts: seq<Artifact>,
                                  c: Contradiction) {
    && |c.translations| >= 2 && Ascending(c.translations)
    && exists translations :: IsLastFor(artifacts, c.locale, translations)
         && forall v :: v in c.translations <==> IsOffered(rules, entries, translations, c.source, v)
  }

  lemma {:induction false} OfferedAre(rules: Rules, entries: seq<SourceEntry>, artifacts: seq<Artifact>,
                                      locale: string, source: string, v: string)
    ensures v in Candidates(rules, entries, artifacts, locale, source)
            <==> IsOffered(rules, entries, EntriesFor(artifacts, locale), source, v)
  {
    var translations := EntriesFor(artifacts, locale);
    CountCandidates(rules, entries, translations, source, v);
    hide FlatMap, EntriesFor, Offers;
    var offering := Filter(translations, t => Offers(rules, entries, source, v, t));
    if offering != [] {
      assert offering[0] in offering;
    }
    if IsOffered(rules, entries, translations, source, v) {
      var t :| t in translations && Offers(rules, entries, source, v, t);
      assert t in offering;
    }
  }

  /** There is only one such sequence. */
  lemma {:induction false} AscendingIsUnique(a: seq<string>, b: seq<string>)
    requires Ascending(a) && Ascending(b) && forall v :: v in a <==> v in b
    ensures a == b
  {
    hide Less;
    if b != [] {
      assert b[0] in b;
    }
    if a != [] {
      assert a[0] in b;
      var i :| 0 <= i < |b| && b[i] == a[0];
      assert b[0] in a;
      var j :| 0 <= j < |a| && a[j] == b[0];
      LessTotal(a[0], b[0]);
      assert a[0] == b[0];
      forall v
        ensures v in a[1..] <==> v in a && v != a[0]
        ensures v in b[1..] <==> v in b && v != b[0]
      {
        LessTotal(v, v);
      }
      AscendingIsUnique(a[1..], b[1..]);
    }
  }

  lemma {:induction false} ConflictIs(rules: Rules, entries: seq<SourceEntry>, artifacts: seq<Artifact>,
                                      c: Contradiction)
    ensures IsContradiction(rules, entries, artifacts, c)
            <==> var distinct := Ordered(Candidates(rules, entries, artifacts, c.locale, c.source));
                 |distinct| > 1 && c.translations == distinct
  {
    var candidates := Candidates(rules, entries, artifacts, c.locale, c.source);
    var distinct := Ordered(candidates);
    OrderedMembers(candidates);
    forall v
      ensures v in candidates <==> IsOffered(rules, entries, EntriesFor(artifacts, c.locale), c.source, v)
    {
      OfferedAre(rules, entries, artifacts, c.locale, c.source, v);
    }
    forall translations
      ensures IsLastFor(artifacts, c.locale, translations) <==> translations == EntriesFor(artifacts, c.locale)
    {
      LastForIs(artifacts, c.locale, translations);
    }
    hide Candidates, Ordered, EntriesFor, IsOffered, Ascending, IsLastFor;
    assert IsLastFor(artifacts, c.locale, EntriesFor(artifacts, c.locale));
    if IsContradiction(rules, entries, artifacts, c) {
      AscendingIsUnique(c.translations, distinct);
    }
  }

  lemma {:induction false} CountConflict(rules: Rules, entries: seq<SourceEntry>, artifacts: seq<Artifact>,
                                         source: string, locale: string, c: Contradiction)
    ensures Occurrences(ConflictFor(rules, entries, artifacts, source, locale), c)
            == if c.source == source && c.locale == locale && IsContradiction(rules, entries, artifacts, c)
               then 1 else 0
  {
    ConflictIs(rules, entries, artifacts, c);
    hide Candidates, Ordered, IsContradiction;
  }

  lemma {:induction false} CountForSource(rules: Rules, entries: seq<SourceEntry>, artifacts: seq<Artifact>,
                                          source: string, locales: seq<string>, c: Contradiction)
    ensures Occurrences(ConflictsForSource(rules, entries, artifacts, source, locales), c)
            == if c.source == source && IsContradiction(rules, entries, artifacts, c)
               then Occurrences(locales, c.locale) else 0
  {
    if locales != [] {
      var n := |locales| - 1;
      OccurrencesLast(locales, c.locale);
      CountForSource(rules, entries, artifacts, source, locales[..n], c);
      CountConflict(rules, entries, artifacts, source, locales[n], c);
      OccurrencesConcat(ConflictsForSource(rules, entries, artifacts, source, locales[..n]),
                        ConflictFor(rules, entries, artifacts, source, locales[n]), c);
      hide ConflictFor, IsContradiction, Occurrences;
    }
  }

  lemma {:induction false} ConflictsLast(rules: Rules, entries: seq<SourceEntry>, artifacts: seq<Artifact>,
                                         sources: seq<string>, c: Contradiction)
    requires sources != []
    ensures var n := |sources| - 1;
            Occurrences(Conflicts(rules, entries, artifacts, sources), c)
            == Occurrences(Conflicts(rules, entries, artifacts, sources[..n]), c)
               + Occurrences(ConflictsForSource(rules, entries, artifacts, sources[n], rules.locales), c)
  {
    hide ConflictsForSource;
    var n := |sources| - 1;
    OccurrencesConcat(Conflicts(rules, entries, artifacts, sources[..n]),
                      ConflictsForSource(rules, entries, artifacts, sources[n], rules.locales), c);
  }

  lemma {:induction false} CountConflicts(rules: Rules, entries: seq<SourceEntry>, artifacts: seq<Artifact>,
                                          sources: seq<string>, c: Contradiction)
    requires Occurrences(sources, c.source) <= 1
    ensures Occurrences(Conflicts(rules, entries, artifacts, sources), c)
            == if c.source in sources && IsContradiction(rules, entries, artifacts, c)
               then Occurrences(rules.locales, c.locale) else 0
  {
    if sources != [] {
      hide Conflicts, ConflictsForSource, IsContradiction, Occurrences;
      var n := |sources| - 1;
      OccurrencesLast(sources, c.source);
      InOccurrences(sources[..n], c.source);
      ConflictsLast(rules, entries, artifacts, sources, c);
      CountConflicts(rules, entries, artifacts, sources[..n], c);
      CountForSource(rules, entries, artifacts, sources[n], rules.locales, c);
    }
  }

  lemma {:induction false} ConflictBeforeIsOrder()
    ensures WeakOrder(ConflictBefore)
  {
    BeforeIsOrder();
    StrictIsWeak(Before);
    forall a: Contradiction, b: Contradiction, c: Contradiction
      ensures !ConflictBefore(a, a)
      ensures ConflictBefore(a, b) && ConflictBefore(b, c) ==> ConflictBefore(a, c)
      ensures ConflictBefore(a, b) ==> ConflictBefore(a, c) || ConflictBefore(c, b)
    {
      OrderOfPairs(a.source, b.source, c.source, a.locale, b.locale, c.locale);
    }
  }

  lemma {:induction false} OrderOfPairs(a: string, b: string, c: string, u: string, v: string, w: string)
    ensures !Less(a, a) && !Less(u, u)
    ensures Less(a, b) && Less(b, c) ==> Less(a, c)
    ensures Less(u, v) && Less(v, w) ==> Less(u, w)
    ensures Less(a, b) ==> Less(a, c) || Less(c, b)
    ensures Less(u, v) ==> Less(u, w) || Less(w, v)
    ensures Less(a, c) || Less(c, a) || a == c
  {
    BeforeIsOrder();
    StrictIsWeak(Before);
    hide Less;
    assert forall x: string, y: string :: Before(x, y) == Less(x, y);
  }

  /** A contradiction is reported for exactly the sources and required locales with two or more different
      translations, with these translations, sorted by source and then by locale. */
  lemma {:induction false} ContradictionsAreExact(rules: Rules, existing: Catalog, entries: seq<SourceEntry>,
                                                  artifacts: seq<Artifact>)
    ensures var reported := BuildCatalog(rules, existing, entries, artifacts).contradictions;
            && (forall c :: Occurrences(reported, c)
                            == if IsSource(rules, entries, c.source) && IsContradiction(rules, entries, artifacts, c)
                               then Occurrences(rules.locales, c.locale) else 0)
            && forall i, j :: 0 <= i < j < |reported| ==>
                 Less(reported[i].source, reported[j].source)
                 || (reported[i].source == reported[j].source
                     && (Less(reported[i].locale, reported[j].locale) || reported[i].locale == reported[j].locale))
  {
    var sources := Sources(rules, entries);
    OrderedMembers(FlatMap(entries, e => SourceOf(rules, e)));
    var found := Conflicts(rules, entries, artifacts, sources);
    forall c: Contradiction
      ensures Occurrences(found, c)
              == if IsSource(rules, entries, c.source) && IsContradiction(rules, entries, artifacts, c)
                 then Occurrences(rules.locales, c.locale) else 0
    {
      SourcesAre(rules, entries, c.source);
      CountConflicts(rules, entries, artifacts, sources, c);
    }
    ConflictBeforeIsOrder();
    SortSortsTies(found, ConflictBefore);
    hide Conflicts, IsContradiction, IsSource, Sources, Sort, Less;
    var reported := Sort(found, ConflictBefore);
    forall i, j | 0 <= i < j < |reported|
      ensures Less(reported[i].source, reported[j].source)
              || (reported[i].source == reported[j].source
                  && (Less(reported[i].locale, reported[j].locale) || reported[i].locale == reported[j].locale))
    {
      assert !ConflictBefore(reported[j], reported[i]);
      LessTotal(reported[i].source, reported[j].source);
      LessTotal(reported[i].locale, reported[j].locale);
    }
  }
}
