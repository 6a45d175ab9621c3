/**
 Building an Apple string catalog (scripts/apple-app-i18n.ts) from the catalog that is already there,
 the native source inventory and the translation artifacts.  Which inventory entries belong to the
 catalog and how a text is written in it are parameters (`includes`, `written`).
*/
module AppleCatalog {
  import opened Wrappers
  import opened Sequences
  import opened Text
  import opened TranslationChoice

  datatype SourceEntry = SourceEntry(id: string, kind: string, path: string, source: string, surface: string)

  datatype Translation = Translation(id: string, source: string, translated: string)

  datatype Artifact = Artifact(locale: string, entries: seq<Translation>)

  datatype StringUnit = StringUnit(state: Option<string>, value: Option<string>)

  type Localizations = map<string, StringUnit>

  /** The entries of a catalog file, with the order they are written in. */
  datatype Catalog = Catalog(order: seq<string>, strings: map<string, Localizations>)

  datatype Contradiction = Contradiction(locale: string, source: string, translations: seq<string>)

  datatype Build = Build(catalog: Catalog, contradictions: seq<Contradiction>)

  datatype Rules = Rules(includes: SourceEntry -> bool, written: string -> string, locales: seq<string>)

  predicate Before(a: string, b: string) {
    Less(a, b)
  }

  function Ordered(values: seq<string>): seq<string> {
    Sort(Distinct(values), Before)
  }

  // ---------------------------------------------------------------------------------------
  // The build as a function

  function SourceOf(rules: Rules, e: SourceEntry): seq<string> {
    if rules.includes(e) then [rules.written(e.source)] else []
  }

  function Sources(rules: Rules, entries: seq<SourceEntry>): seq<string> {
    Ordered(FlatMap(entries, e => SourceOf(rules, e)))
  }

  /** Some included entry has this id and this written source. */
  predicate HasId(rules: Rules, entries: seq<SourceEntry>, source: string, id: string) {
    exists e :: e in entries && rules.includes(e) && rules.written(e.source) == source && e.id == id
  }

  function CandidateOf(rules: Rules, entries: seq<SourceEntry>, source: string, t: Translation): seq<string> {
    if rules.written(t.source) == source && HasId(rules, entries, source, t.id)
    then [rules.written(t.translated)] else []
  }

  /** The entries of the last artifact for a locale. */
  function EntriesFor(artifacts: seq<Artifact>, locale: string): seq<Translation> {
    if artifacts == [] then [] else
      var last := artifacts[|artifacts| - 1];
      if last.locale == locale then last.entries else EntriesFor(artifacts[..|artifacts| - 1], locale)
  }

  function Candidates(rules: Rules, entries: seq<SourceEntry>, artifacts: seq<Artifact>, locale: string,
                      source: string): seq<string> {
    FlatMap(EntriesFor(artifacts, locale), t => CandidateOf(rules, entries, source, t))
  }

  function ExistingUnit(existing: Catalog, source: string, locale: string): Option<StringUnit> {
    if source in existing.strings && locale in existing.strings[source]
    then Some(existing.strings[source][locale])
    else None
  }

  predicate IsTranslated(unit: Option<StringUnit>) {
    unit.Some? && unit.value.value.Some? && unit.value.value.value != "" && unit.value.state == Some("translated")
  }

  function UnitFor(existing: Option<StringUnit>, locale: string, source: string, candidates: seq<string>): StringUnit {
    if IsTranslated(existing) then existing.value
    else if locale == "en" then StringUnit(Some("translated"), Some(source))
    else
      var value := ChooseTranslation(source, candidates);
      StringUnit(Some(if value == source then "new" else "translated"), Some(value))
  }

  function LocalizationsFor(rules: Rules, existing: Catalog, entries: seq<SourceEntry>, artifacts: seq<Artifact>,
                            source: string, locales: seq<string>): Localizations {
    map locale | locale in locales ::
      UnitFor(ExistingUnit(existing, source, locale), locale, source,
              Candidates(rules, entries, artifacts, locale, source))
  }

  function StringsFor(rules: Rules, existing: Catalog, entries: seq<SourceEntry>, artifacts: seq<Artifact>,
                      sources: seq<string>): map<string, Localizations> {
    map source | source in sources :: LocalizationsFor(rules, existing, entries, artifacts, source, rules.locales)
  }

  function ConflictFor(rules: Rules, entries: seq<SourceEntry>, artifacts: seq<Artifact>, source: string,
                       locale: string)
    : seq<Contradiction>
  {
    var distinct := Ordered(Candidates(rules, entries, artifacts, locale, source));
    if |distinct| > 1 then [Contradiction(locale, source, distinct)] else []
  }

  function ConflictsForSource(rules: Rules, entries: seq<SourceEntry>, artifacts: seq<Artifact>, source: string,
                              locales: seq<string>): seq<Contradiction> {
    if locales == [] then [] else
      var n := |locales| - 1;
      ConflictsForSource(rules, entries, artifacts, source, locales[..n])
        + ConflictFor(rules, entries, artifacts, source, locales[n])
  }

  function Conflicts(rules: Rules, entries: seq<SourceEntry>, artifacts: seq<Artifact>,
                     sources: seq<string>): seq<Contradiction> {
    if sources == [] then [] else
      var n := |sources| - 1;
      Conflicts(rules, entries, artifacts, sources[..n])
      + ConflictsForSource(rules, entries, artifacts, sources[n], rules.locales)
  }

  predicate ConflictBefore(a: Contradiction, b: Contradiction) {
    Less(a.source, b.source) || (a.source == b.source && Less(a.locale, b.locale))
  }

  function BuildCatalog(rules: Rules, existing: Catalog, entries: seq<SourceEntry>, artifacts: seq<Artifact>): Build {
    var sources := Sources(rules, entries);
    Build(Catalog(sources, StringsFor(rules, existing, entries, artifacts, sources)),
          Sort(Conflicts(rules, entries, artifacts, sources), ConflictBefore))
  }

  // ---------------------------------------------------------------------------------------
  // The build as the program runs it

  /** `bySource` of one artifact, restricted to the catalog's sources. */
  ghost predicate Collects(bySource: map<string, seq<string>>, rules: Rules, entries: seq<SourceEntry>,
                           sources: seq<string>, translations: seq<Translation>) {
    forall source :: source in sources ==>
      (if source in bySource then bySource[source] else [])
        == FlatMap(translations, t => CandidateOf(rules, entries, source, t))
  }

  function Collect(bySource: map<string, seq<string>>, rules: Rules, entries: seq<SourceEntry>, sources: seq<string>,
                   t: Translation): map<string, seq<string>> {
    var source := rules.written(t.source);
    if source in sources && HasId(rules, entries, source, t.id)
    then bySource[source := (if source in bySource then bySource[source] else []) + [rules.written(t.translated)]]
    else bySource
  }

  lemma {:induction false} CollectsMore(bySource: map<string, seq<string>>, rules: Rules, entries: seq<SourceEntry>,
                                        sources: seq<string>,
                     translations: seq<Translation>, n: nat)
    requires n < |translations| && Collects(bySource, rules, entries, sources, translations[..n])
    ensures Collects(Collect(bySource, rules, entries, sources, translations[n]),
                     rules, entries, sources, translations[..n + 1])
  {
    hide HasId, FlatMap;
    var more := Collect(bySource, rules, entries, sources, translations[n]);
    forall source | source in sources
      ensures (if source in more then more[source] else [])
              == FlatMap(translations[..n + 1], t => CandidateOf(rules, entries, source, t))
    {
      FlatMapLast(translations, n, t => CandidateOf(rules, entries, source, t));
    }
  }

  lemma {:induction false} FlatMapLast<A, B>(s: seq<A>, n: nat, f: A -> seq<B>)
    requires n < |s|
    ensures FlatMap(s[..n + 1], f) == FlatMap(s[..n], f) + f(s[n])
  {
    assert s[..n + 1] == s[..n] + [s[n]];
    FlatMapConcat(s[..n], [s[n]], f);
    assert FlatMap([s[n]][1..], f) == [];
    assert FlatMap([s[n]], f) == f(s[n]) + [];
  }

  method CollectTranslations(rules: Rules, entries: seq<SourceEntry>, sources: seq<string>,
                             translations: seq<Translation>)
    returns (bySource: map<string, seq<string>>)
    ensures Collects(bySource, rules, entries, sources, translations)
  {
    bySource := map[];
    for n := 0 to |translations|
      invariant Collects(bySource, rules, entries, sources, translations[..n])
    {
      hide Collects, HasId;
      CollectsMore(bySource, rules, entries, sources, translations, n);
      var entry := translations[n];
      var source := rules.written(entry.source);
      if source !in sources {
        continue;
      }
      if !HasId(rules, entries, source, entry.id) {
        continue;
      }
      var values := if source in bySource then bySource[source] else [];
      bySource := bySource[source := values + [rules.written(entry.translated)]];
    }
    assert translations[..|translations|] == translations;
  }

  ghost predicate ByLocale(translationsByLocale: map<string, map<string, seq<string>>>, rules: Rules,
                           entries: seq<SourceEntry>, sources: seq<string>, artifacts: seq<Artifact>) {
    forall locale :: Collects(if locale in translationsByLocale then translationsByLocale[locale] else map[],
                              rules, entries, sources, EntriesFor(artifacts, locale))
  }

  /** A later artifact for the same locale replaces an earlier one. */
  method CollectLocales(rules: Rules, entries: seq<SourceEntry>, sources: seq<string>, artifacts: seq<Artifact>)
    returns (translationsByLocale: map<string, map<string, seq<string>>>)
    ensures ByLocale(translationsByLocale, rules, entries, sources, artifacts)
  {
    translationsByLocale := map[];
    for n := 0 to |artifacts|
      invariant ByLocale(translationsByLocale, rules, entries, sources, artifacts[..n])
    {
      hide Collects;
      var bySource := CollectTranslations(rules, entries, sources, artifacts[n].entries);
      assert artifacts[..n + 1][..n] == artifacts[..n];
      translationsByLocale := translationsByLocale[artifacts[n].locale := bySource];
    }
    assert artifacts[..|artifacts|] == artifacts;
  }

  method LocalizeSource(rules: Rules, existing: Catalog, source: string,
                        translationsByLocale: map<string, map<string, seq<string>>>,
                        ghost entries: seq<SourceEntry>, ghost sources: seq<string>, ghost artifacts: seq<Artifact>)
    returns (localizations: Localizations, conflicts: seq<Contradiction>)
    requires ByLocale(translationsByLocale, rules, entries, sources, artifacts) && source in sources
    ensures localizations == LocalizationsFor(rules, existing, entries, artifacts, source, rules.locales)
    ensures conflicts == ConflictsForSource(rules, entries, artifacts, source, rules.locales)
  {
    localizations, conflicts := map[], [];
    for n := 0 to |rules.locales|
      invariant localizations == LocalizationsFor(rules, existing, entries, artifacts, source, rules.locales[..n])
      invariant conflicts == ConflictsForSource(rules, entries, artifacts, source, rules.locales[..n])
    {
      hide UnitFor, ExistingUnit, Ordered;
      var locale := rules.locales[n];
      LocaleStep(rules, existing, entries, artifacts, source, rules.locales, n);
      var bySource := if locale in translationsByLocale then translationsByLocale[locale] else map[];
      assert Collects(bySource, rules, entries, sources, EntriesFor(artifacts, locale));
      var candidates := if source in bySource then bySource[source] else [];
      assert candidates == Candidates(rules, entries, artifacts, locale, source);
      var distinct := Ordered(candidates);
      if |distinct| > 1 {
        conflicts := conflicts + [Contradiction(locale, source, distinct)];
      }
      localizations := localizations[locale :=
              UnitFor(ExistingUnit(existing, source, locale), locale, source, candidates)];
    }
    assert rules.locales[..|rules.locales|] == rules.locales;
  }

  lemma {:induction false} LocaleStep(rules: Rules, existing: Catalog, entries: seq<SourceEntry>,
                                      artifacts: seq<Artifact>, source: string,
                   locales: seq<string>, n: nat)
    requires n < |locales|
    ensures var locale, candidates := locales[n], Candidates(rules, entries, artifacts, locales[n], source);
            && LocalizationsFor(rules, existing, entries, artifacts, source, locales[..n + 1])
               == LocalizationsFor(rules, existing, entries, artifacts, source, locales[..n])
                    [locale := UnitFor(ExistingUnit(existing, source, locale), locale, source, candidates)]
            && ConflictsForSource(rules, entries, artifacts, source, locales[..n + 1])
               == ConflictsForSource(rules, entries, artifacts, source, locales[..n])
                  + ConflictFor(rules, entries, artifacts, source, locale)
  {
    assert locales[..n + 1] == locales[..n] + [locales[n]] && locales[..n + 1][..n] == locales[..n];
  }

  method BuildAppleCatalog(rules: Rules, existing: Catalog, entries: seq<SourceEntry>,
                           artifacts: seq<Artifact>)
    returns (b: Build)
    ensures b == BuildCatalog(rules, existing, entries, artifacts)
  {
    hide Sources, Conflicts, StringsFor, ByLocale, LocalizationsFor, ConflictsForSource;
    var sources := Sources(rules, entries);
    var translationsByLocale := CollectLocales(rules, entries, sources, artifacts);
    var strings: map<string, Localizations> := map[];
    var contradictions: seq<Contradiction> := [];
    NoSourceYet(rules, existing, entries, artifacts);
    for n := 0 to |sources|
      invariant strings == StringsFor(rules, existing, entries, artifacts, sources[..n])
      invariant contradictions == Conflicts(rules, entries, artifacts, sources[..n])
    {
      SourceStep(rules, existing, entries, artifacts, sources, n);
      var localizations, conflicts :=
        LocalizeSource(rules, existing, sources[n], translationsByLocale, entries, sources, artifacts);
      strings := strings[sources[n] := localizations];
      contradictions := contradictions + conflicts;
    }
    assert sources[..|sources|] == sources;
    return Build(Catalog(sources, strings), Sort(contradictions, ConflictBefore));
  }

  lemma {:induction false} NoSourceYet(rules: Rules, existing: Catalog, entries: seq<SourceEntry>,
                                       artifacts: seq<Artifact>)
    ensures StringsFor(rules, existing, entries, artifacts, []) == map[]
    ensures Conflicts(rules, entries, artifacts, []) == []
  {
  }

  lemma {:induction false} SourceStep(rules: Rules, existing: Catalog, entries: seq<SourceEntry>,
                                      artifacts: seq<Artifact>,
                   sources: seq<string>, n: nat)
    requires n < |sources|
    ensures StringsFor(rules, existing, entries, artifacts, sources[..n + 1])
            == StringsFor(rules, existing, entries, artifacts, sources[..n])
                 [sources[n] := LocalizationsFor(rules, existing, entries, artifacts, sources[n], rules.locales)]
    ensures Conflicts(rules, entries, artifacts, sources[..n + 1])
            == Conflicts(rules, entries, artifacts, sources[..n])
               + ConflictsForSource(rules, entries, artifacts, sources[n], rules.locales)
  {
    hide LocalizationsFor, ConflictsForSource;
    assert sources[..n + 1] == sources[..n] + [sources[n]] && sources[..n + 1][..n] == sources[..n];
  }

  // ---------------------------------------------------------------------------------------
  // Building again changes nothing

  lemma {:induction false} UnitIsStable(existing: Option<StringUnit>, locale: string, source: string,
                                        candidates: seq<string>)
    ensures var unit := UnitFor(existing, locale, source, candidates);
            UnitFor(Some(unit), locale, source, candidates) == unit
  {
  }

  lemma {:induction false} LocalizationsAreStable(rules: Rules, existing: Catalog, built: Catalog,
                                                  entries: seq<SourceEntry>,
                               artifacts: seq<Artifact>, source: string)
    requires source in built.strings
    requires built.strings[source] == LocalizationsFor(rules, existing, entries, artifacts, source, rules.locales)
    ensures LocalizationsFor(rules, built, entries, artifacts, source, rules.locales) == built.strings[source]
  {
    hide UnitFor, Candidates;
    forall locale | locale in rules.locales
      ensures UnitFor(ExistingUnit(built, source, locale), locale, source,
              Candidates(rules, entries, artifacts, locale, source))
              == built.strings[source][locale]
    {
      UnitIsStable(ExistingUnit(existing, source, locale), locale, source,
                   Candidates(rules, entries, artifacts, locale, source));
    }
  }

  /** Rebuilding from the catalog just built, with the same sources and artifacts, gives the same
      catalog and the same contradictions. */
  lemma {:induction false} SyncIsFixpoint(rules: Rules, existing: Catalog, entries: seq<SourceEntry>,
                                          artifacts: seq<Artifact>)
    ensures var b := BuildCatalog(rules, existing, entries, artifacts);
            BuildCatalog(rules, b.catalog, entries, artifacts) == b
  {
    hide LocalizationsFor, Sources, Conflicts;
    var sources := Sources(rules, entries);
    var built := BuildCatalog(rules, existing, entries, artifacts).catalog;
    forall source | source in sources
      ensures LocalizationsFor(rules, built, entries, artifacts, source, rules.locales) == built.strings[source]
    {
      LocalizationsAreStable(rules, existing, built, entries, artifacts, source);
    }
  }

  /** The two files of a sync; the report may not be there yet. */
  datatype Files = Files(catalog: string, contradictions: Option<string>)

  datatype StaleFile = StaleCatalog | StaleReport

  /** Reading and writing a catalog, and writing a report. */
  datatype Formats = Formats(parse: string -> Catalog, serialize: Catalog -> string,
                             report: seq<Contradiction> -> string)

  /** What the files should hold, given the catalog file that is read. */
  function Expected(rules: Rules, files: Files, entries: seq<SourceEntry>, artifacts: seq<Artifact>,
                    formats: Formats): Files {
    var b := BuildCatalog(rules, formats.parse(files.catalog), entries, artifacts);
    Files(formats.serialize(b.catalog), Some(formats.report(b.contradictions)))
  }

  /** One sync of the files: a write leaves what is expected, a check fails for the first file that differs. */
  method SyncIosCatalog(rules: Rules, files: Files, entries: seq<SourceEntry>, artifacts: seq<Artifact>,
                        formats: Formats, write: bool)
    returns (r: Result<Files, StaleFile>)
    ensures r == Synced(rules, files, entries, artifacts, formats, write)
    ensures var catalog := BuildCatalog(rules, formats.parse(files.catalog), entries, artifacts).catalog;
            && (r == Err(StaleCatalog) <==> !write && files.catalog != formats.serialize(catalog))
            && (r.Ok? ==> r.value.catalog == formats.serialize(catalog))
    ensures var report := BuildCatalog(rules, formats.parse(files.catalog), entries, artifacts).contradictions;
            && (r == Err(StaleReport) ==> !write && files.contradictions != Some(formats.report(report)))
            && (r.Ok? ==> r.value.contradictions == Some(formats.report(report)))
    ensures r.Ok? && !write ==> r.value == files
    ensures write ==> r.Ok?
  {
    hide BuildCatalog;
    var b := BuildAppleCatalog(rules, formats.parse(files.catalog), entries, artifacts);
    var catalog, contradictions := files.catalog, files.contradictions;
    if catalog != formats.serialize(b.catalog) {
      if !write {
        return Err(StaleCatalog);
      }
      catalog := formats.serialize(b.catalog);
    }
    if contradictions != Some(formats.report(b.contradictions)) {
      if !write {
        return Err(StaleReport);
      }
      contradictions := Some(formats.report(b.contradictions));
    }
    return Ok(Files(catalog, contradictions));
  }

  function Synced(rules: Rules, files: Files, entries: seq<SourceEntry>, artifacts: seq<Artifact>, formats: Formats,
                  write: bool): Result<Files, StaleFile> {
    var expected := Expected(rules, files, entries, artifacts, formats);
    if write || files == expected then Ok(expected)
    else if files.catalog != expected.catalog then Err(StaleCatalog)
    else Err(StaleReport)
  }

  /** The check after a write passes, when reading the catalog that was written gives its entries back, in
      whatever order. */
  lemma {:induction false} CheckAfterWritePasses(rules: Rules, files: Files, entries: seq<SourceEntry>,
                                                 artifacts: seq<Artifact>, formats: Formats)
    ensures Synced(rules, files, entries, artifacts, formats, true).Ok?
    ensures var after := Synced(rules, files, entries, artifacts, formats, true).value;
            var c := BuildCatalog(rules, formats.parse(files.catalog), entries, artifacts).catalog;
            formats.parse(formats.serialize(c)).strings == c.strings ==>
              && Synced(rules, after, entries, artifacts, formats, false) == Ok(after)
              && Synced(rules, after, entries, artifacts, formats, true) == Ok(after)
  {
    hide BuildCatalog;
    var c := BuildCatalog(rules, formats.parse(files.catalog), entries, artifacts).catalog;
    SyncIsFixpoint(rules, formats.parse(files.catalog), entries, artifacts);
    if formats.parse(formats.serialize(c)).strings == c.strings {
      BuildReadsStrings(rules, formats.parse(formats.serialize(c)), c, entries, artifacts);
    }
  }

  /** The order of the entries in the catalog read makes no difference. */
  lemma {:induction false} BuildReadsStrings(rules: Rules, a: Catalog, b: Catalog, entries: seq<SourceEntry>,
                                             artifacts: seq<Artifact>)
    requires a.strings == b.strings
    ensures BuildCatalog(rules, a, entries, artifacts) == BuildCatalog(rules, b, entries, artifacts)
  {
    hide Sources, Conflicts, Candidates, UnitFor;
    forall source: string, locale: string
      ensures ExistingUnit(a, source, locale) == ExistingUnit(b, source, locale)
    {
    }
    hide ExistingUnit;
    forall source: string
      ensures LocalizationsFor(rules, a, entries, artifacts, source, rules.locales)
              == LocalizationsFor(rules, b, entries, artifacts, source, rules.locales)
    {
    }
  }

  // ---------------------------------------------------------------------------------------
  // The order of the inputs does not matter

  /** An artifact up to the order of its entries. */
  datatype Unordered = Unordered(locale: string, entries: multiset<Translation>)

  function Forget(a: Artifact): seq<Unordered> {
    [Unordered(a.locale, multiset(a.entries))]
  }

  predicate DistinctLocales(artifacts: seq<Artifact>) {
    forall i, j :: 0 <= i < j < |artifacts| ==> artifacts[i].locale != artifacts[j].locale
  }

  /** The same artifacts in any order, each with its entries in any order. */
  ghost predicate Reordered(a: seq<Artifact>, b: seq<Artifact>) {
    multiset(FlatMap(a, Forget)) == multiset(FlatMap(b, Forget))
  }

  lemma {:induction false} ForgetMembers(artifacts: seq<Artifact>, u: Unordered)
    ensures u in FlatMap(artifacts, Forget) <==>
              exists i :: 0 <= i < |artifacts| && u == Unordered(artifacts[i].locale, multiset(artifacts[i].entries))
  {
    if artifacts != [] {
      ForgetMembers(artifacts[1..], u);
      if i :| 0 <= i < |artifacts[1..]|
             && u == Unordered(artifacts[1..][i].locale, multiset(artifacts[1..][i].entries)) {
        assert artifacts[i + 1] == artifacts[1..][i];
      }
      if i :| 0 < i < |artifacts| && u == Unordered(artifacts[i].locale, multiset(artifacts[i].entries)) {
        assert artifacts[i] == artifacts[1..][i - 1];
      }
    }
  }

  /** With distinct locales, the entries for a locale are those of the one artifact that has it. */
  lemma {:induction false} EntriesForIs(artifacts: seq<Artifact>, locale: string, i: nat)
    requires DistinctLocales(artifacts) && i < |artifacts| && artifacts[i].locale == locale
    ensures EntriesFor(artifacts, locale) == artifacts[i].entries
  {
    if i < |artifacts| - 1 {
      EntriesForIs(artifacts[..|artifacts| - 1], locale, i);
    }
  }

  lemma {:induction false} EntriesForNone(artifacts: seq<Artifact>, locale: string)
    requires forall i :: 0 <= i < |artifacts| ==> artifacts[i].locale != locale
    ensures EntriesFor(artifacts, locale) == []
  {
    if artifacts != [] {
      EntriesForNone(artifacts[..|artifacts| - 1], locale);
    }
  }

  lemma {:induction false} SameArtifact(a: seq<Artifact>, b: seq<Artifact>, i: nat) returns (j: nat)
    requires Reordered(a, b) && i < |a|
    ensures j < |b| && b[j].locale == a[i].locale && multiset(b[j].entries) == multiset(a[i].entries)
  {
    var u := Unordered(a[i].locale, multiset(a[i].entries));
    ForgetMembers(a, u);
    ForgetMembers(b, u);
    SameElements(FlatMap(a, Forget), FlatMap(b, Forget), u);
    j :| 0 <= j < |b| && u == Unordered(b[j].locale, multiset(b[j].entries));
  }

  lemma {:induction false} EntriesForIgnoresOrder(a: seq<Artifact>, b: seq<Artifact>, locale: string)
    requires DistinctLocales(a) && DistinctLocales(b) && Reordered(a, b)
    ensures multiset(EntriesFor(a, locale)) == multiset(EntriesFor(b, locale))
  {
    hide EntriesFor;
    if i :| 0 <= i < |a| && a[i].locale == locale {
      var j := SameArtifact(a, b, i);
      EntriesForIs(a, locale, i);
      EntriesForIs(b, locale, j);
    } else if j :| 0 <= j < |b| && b[j].locale == locale {
      var i := SameArtifact(b, a, j);
    } else {
      EntriesForNone(a, locale);
      EntriesForNone(b, locale);
    }
  }

  lemma {:induction false} HasIdIgnoresOrder(rules: Rules, a: seq<SourceEntry>, b: seq<SourceEntry>, source: string,
                                             id: string)
    requires multiset(a) == multiset(b)
    ensures HasId(rules, a, source, id) == HasId(rules, b, source, id)
  {
    forall e: SourceEntry {
      SameElements(a, b, e);
    }
  }

  lemma {:induction false} BeforeIsOrder()
    ensures StrictOrder(Before)
  {
    forall a: string, b: string {
      LessTotal(a, b);
    }
    forall a: string, b: string, c: string | Less(a, b) && Less(b, c)
      ensures Less(a, c)
    {
      LessTransitive(a, b, c);
    }
  }

  lemma {:induction false} OrderedIgnoresOrder(a: seq<string>, b: seq<string>)
    requires multiset(a) == multiset(b)
    ensures Ordered(a) == Ordered(b)
  {
    BeforeIsOrder();
    DistinctIgnoresOrder(a, b);
    SortIgnoresOrder(Distinct(a), Distinct(b), Before);
  }

  lemma {:induction false} SourcesIgnoreOrder(rules: Rules, a: seq<SourceEntry>, b: seq<SourceEntry>)
    requires multiset(a) == multiset(b)
    ensures Sources(rules, a) == Sources(rules, b)
  {
    FlatMapIgnoresOrder(a, b, e => SourceOf(rules, e));
    OrderedIgnoresOrder(FlatMap(a, e => SourceOf(rules, e)), FlatMap(b, e => SourceOf(rules, e)));
  }

  ghost predicate SameInputs(a: seq<SourceEntry>, b: seq<SourceEntry>, moreA: seq<Artifact>, moreB: seq<Artifact>) {
    && multiset(a) == multiset(b)
    && DistinctLocales(moreA) && DistinctLocales(moreB) && Reordered(moreA, moreB)
  }

  lemma {:induction false} FlatMapSame<A, B>(s: seq<A>, f: A -> seq<B>, g: A -> seq<B>)
    requires forall x :: x in s ==> f(x) == g(x)
    ensures FlatMap(s, f) == FlatMap(s, g)
  {
    if s != [] {
      FlatMapSame(s[1..], f, g);
    }
  }

  lemma {:induction false} CandidatesIgnoreOrder(rules: Rules, a: seq<SourceEntry>, b: seq<SourceEntry>,
                                                 moreA: seq<Artifact>, moreB: seq<Artifact>,
                              locale: string, source: string)
    requires SameInputs(a, b, moreA, moreB)
    ensures multiset(Candidates(rules, a, moreA, locale, source))
            == multiset(Candidates(rules, b, moreB, locale, source))
  {
    EntriesForIgnoresOrder(moreA, moreB, locale);
    var f := t => CandidateOf(rules, a, source, t);
    var g := t => CandidateOf(rules, b, source, t);
    FlatMapIgnoresOrder(EntriesFor(moreA, locale), EntriesFor(moreB, locale), f);
    forall t | t in EntriesFor(moreB, locale) ensures f(t) == g(t) {
      HasIdIgnoresOrder(rules, a, b, source, t.id);
    }
    FlatMapSame(EntriesFor(moreB, locale), f, g);
  }

  lemma {:induction false} UnitIgnoresOrder(existing: Option<StringUnit>, locale: string, source: string,
                                            a: seq<string>, b: seq<string>)
    requires multiset(a) == multiset(b)
    ensures UnitFor(existing, locale, source, a) == UnitFor(existing, locale, source, b)
  {
    if a == [] {
      assert |multiset(b)| == |b| == 0;
    } else {
      ChoosersAgree(source, a, b);
    }
  }

  lemma {:induction false} ConflictsIgnoreOrder(rules: Rules, a: seq<SourceEntry>, b: seq<SourceEntry>,
                                                moreA: seq<Artifact>,
                                                moreB: seq<Artifact>, source: string, locales: seq<string>)
    requires SameInputs(a, b, moreA, moreB)
    ensures ConflictsForSource(rules, a, moreA, source, locales) == ConflictsForSource(rules, b, moreB, source, locales)
  {
    if locales != [] {
      hide SameInputs, Ordered, Candidates;
      var n := |locales| - 1;
      ConflictsIgnoreOrder(rules, a, b, moreA, moreB, source, locales[..n]);
      CandidatesIgnoreOrder(rules, a, b, moreA, moreB, locales[n], source);
      OrderedIgnoresOrder(Candidates(rules, a, moreA, locales[n], source),
                          Candidates(rules, b, moreB, locales[n], source));
    }
  }

  lemma {:induction false} AllConflictsIgnoreOrder(rules: Rules, a: seq<SourceEntry>, b: seq<SourceEntry>,
                                                   moreA: seq<Artifact>,
                                                   moreB: seq<Artifact>, sources: seq<string>)
    requires SameInputs(a, b, moreA, moreB)
    ensures Conflicts(rules, a, moreA, sources) == Conflicts(rules, b, moreB, sources)
  {
    if sources != [] {
      hide SameInputs;
      AllConflictsIgnoreOrder(rules, a, b, moreA, moreB, sources[..|sources| - 1]);
      ConflictsIgnoreOrder(rules, a, b, moreA, moreB, sources[|sources| - 1], rules.locales);
    }
  }

  lemma {:induction false} LocalizationsIgnoreOrder(rules: Rules, existing: Catalog, a: seq<SourceEntry>,
                                                    b: seq<SourceEntry>,
                                 moreA: seq<Artifact>, moreB: seq<Artifact>, source: string)
    requires SameInputs(a, b, moreA, moreB)
    ensures LocalizationsFor(rules, existing, a, moreA, source, rules.locales)
            == LocalizationsFor(rules, existing, b, moreB, source, rules.locales)
  {
    hide SameInputs, Candidates, UnitFor, ExistingUnit;
    forall locale | locale in rules.locales
      ensures UnitFor(ExistingUnit(existing, source, locale), locale, source,
                      Candidates(rules, a, moreA, locale, source))
              == UnitFor(ExistingUnit(existing, source, locale), locale, source,
                         Candidates(rules, b, moreB, locale, source))
    {
      CandidatesIgnoreOrder(rules, a, b, moreA, moreB, locale, source);
      UnitIgnoresOrder(ExistingUnit(existing, source, locale), locale, source,
                       Candidates(rules, a, moreA, locale, source), Candidates(rules, b, moreB, locale, source));
    }
  }

  lemma {:induction false} StringsIgnoreOrder(rules: Rules, existing: Catalog, a: seq<SourceEntry>, b: seq<SourceEntry>,
                           moreA: seq<Artifact>, moreB: seq<Artifact>, sources: seq<string>)
    requires SameInputs(a, b, moreA, moreB)
    ensures StringsFor(rules, existing, a, moreA, sources) == StringsFor(rules, existing, b, moreB, sources)
  {
    hide SameInputs, LocalizationsFor;
    forall source | source in sources
      ensures LocalizationsFor(rules, existing, a, moreA, source, rules.locales)
              == LocalizationsFor(rules, existing, b, moreB, source, rules.locales)
    {
      LocalizationsIgnoreOrder(rules, existing, a, b, moreA, moreB, source);
    }
  }

  lemma {:induction false} SourcesOfSameInputs(rules: Rules, a: seq<SourceEntry>, b: seq<SourceEntry>,
                                               moreA: seq<Artifact>, moreB: seq<Artifact>)
    requires SameInputs(a, b, moreA, moreB)
    ensures Sources(rules, a) == Sources(rules, b)
  {
    SourcesIgnoreOrder(rules, a, b);
  }

  /** With distinct artifact locales, the build does not depend on the order of the source entries, of
      the artifacts, or of the translations inside an artifact. */
  lemma {:induction false} BuildIgnoresOrder(rules: Rules, existing: Catalog, a: seq<SourceEntry>, b: seq<SourceEntry>,
                          moreA: seq<Artifact>, moreB: seq<Artifact>)
    requires SameInputs(a, b, moreA, moreB)
    ensures BuildCatalog(rules, existing, a, moreA) == BuildCatalog(rules, existing, b, moreB)
  {
    hide SameInputs, Sources, Conflicts, StringsFor, Sort;
    SourcesOfSameInputs(rules, a, b, moreA, moreB);
    AllConflictsIgnoreOrder(rules, a, b, moreA, moreB, Sources(rules, a));
    StringsIgnoreOrder(rules, existing, a, b, moreA, moreB, Sources(rules, a));
  }
}
