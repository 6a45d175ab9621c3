/**
 The localized `InfoPlist.strings` files (scripts/apple-app-i18n.ts): printing one, parsing it back, and
 the sync step that rewrites a file from the translations and from its own earlier content.
*/
module InfoPlistStrings {
  import opened Wrappers
  import opened Text
  import opened Sequences
  import opened JsonLiteral
  import opened TranslationChoice

  /** A localized entry: its key, the source text kept in the comment, and the value. */
  datatype Line = Line(key: string, source: string, value: string)

  /** What the parser keeps for a key. */
  datatype Existing = Existing(source: Option<string>, value: string)

  // ---------------------------------------------------------------------------------------
  // Printing

  const COMMENT := "/* OpenClaw source: "

  function Assigned(line: Line): string {
    Stringify(line.key) + (" = " + (Stringify(line.value) + ";"))
  }

  function LineText(line: Line): string {
    COMMENT + (Stringify(line.source) + (" */\n" + Assigned(line)))
  }

  function LineTexts(lines: seq<Line>): seq<string> {
    if lines == [] then [] else [LineText(lines[0])] + LineTexts(lines[1..])
  }

  function Print(lines: seq<Line>): string {
    Join(LineTexts(lines)) + "\n"
  }

  // ---------------------------------------------------------------------------------------
  // Parsing: the pattern of the program, its groups and its search

  /** The three literals of one match; the comment is optional. */
  datatype Match = Match(comment: Option<string>, key: string, value: string)

  datatype Found = Found(entry: Match, end: nat)

  predicate LineStart(text: string, i: nat) {
    i <= |text| && (i == 0 || IsLineTerminator(text[i - 1]))
  }

  function SkipSpace(text: string, i: nat): (r: nat)
    requires i <= |text|
    ensures i <= r <= |text|
    decreases |text| - i
  {
    if i < |text| && IsSpace(text[i]) then SkipSpace(text, i + 1) else i
  }

  /** The optional first group at `i`: its literal and where it ends. */
  function CommentAt(text: string, i: nat): (r: Option<(string, nat)>)
    ensures r.Some? ==> i < r.value.1 <= |text|
  {
    if !LineStart(text, i) || !Stands(text, i, COMMENT) then None
    else
      var literal := i + |COMMENT|;
      match LiteralEnd(text, literal)
      case Some(end) => if Stands(text, end, " */\n") then Some((text[literal..end], end + 4)) else None
      case None => None
  }

  /** The rest of the pattern at `i`. */
  function AssignmentAt(text: string, i: nat, comment: Option<string>): (r: Option<Found>)
    ensures r.Some? ==> i < r.value.end <= |text|
  {
    if !LineStart(text, i) then None
    else
      var key := SkipSpace(text, i);
      match LiteralEnd(text, key)
      case None => None
      case Some(keyEnd) =>
        var equals := SkipSpace(text, keyEnd);
        if equals == |text| || text[equals] != '=' then None
        else
          var value := SkipSpace(text, equals + 1);
          match LiteralEnd(text, value)
          case None => None
          case Some(end) =>
            if end < |text| && text[end] == ';'
            then Some(Found(Match(comment, text[key..keyEnd], text[value..end]), end + 1))
            else None
  }

  /** A match that starts at `i`: with the comment if that leads to one, else without. */
  function MatchAt(text: string, i: nat): (r: Option<Found>)
    ensures r.Some? ==> i < r.value.end <= |text|
  {
    match CommentAt(text, i)
    case Some(comment) =>
      var found := AssignmentAt(text, comment.1, Some(comment.0));
      if found.Some? then found else AssignmentAt(text, i, None)
    case None => AssignmentAt(text, i, None)
  }

  /** All matches from left to right, each search starting where the last match ended. */
  function Matches(text: string, from: nat): seq<Match>
    decreases |text| - from
  {
    if from > |text| then []
    else
      match MatchAt(text, from)
      case Some(found) => [found.entry] + Matches(text, found.end)
      case None => Matches(text, from + 1)
  }

  function ParseComment(comment: Option<string>): Option<Option<string>> {
    match comment
    case None => Some(None)
    case Some(literal) =>
      match ParseLiteral(literal)
      case Some(source) => Some(Some(source))
      case None => None
  }

  function ParseMatch(m: Match): Option<(string, Existing)> {
    match (ParseLiteral(m.key), ParseComment(m.comment), ParseLiteral(m.value))
    case (Some(key), Some(source), Some(value)) => Some((key, Existing(source, value)))
    case _ => None
  }

  /** Entering the matches one after the other; a literal that is no JSON fails the whole. */
  function Store(values: map<string, Existing>, matches: seq<Match>): Option<map<string, Existing>>
    decreases |matches|
  {
    if matches == [] then Some(values)
    else
      match ParseMatch(matches[0])
      case Some(entry) => Store(values[entry.0 := entry.1], matches[1..])
      case None => None
  }

  function Parsed(text: string): Option<map<string, Existing>> {
    Store(map[], Matches(text, 0))
  }

  lemma {:induction false} MatchesFrom(text: string, i: nat)
    requires i <= |text|
    ensures Matches(text, i) == if MatchAt(text, i).None? then Matches(text, i + 1)
                                else [MatchAt(text, i).value.entry] + Matches(text, MatchAt(text, i).value.end)
  {
  }

  lemma {:induction false} StoreStep(values: map<string, Existing>, first: Match, rest: seq<Match>)
    ensures Store(values, [first] + rest)
            == match ParseMatch(first)
               case Some(entry) => Store(values[entry.0 := entry.1], rest)
               case None => None
  {
    hide ParseMatch;
    assert ([first] + rest)[1..] == rest;
  }

  lemma {:induction false} ParsedIsStored(text: string)
    ensures Parsed(text) == Store(map[], Matches(text, 0))
  {
  }

  lemma {:induction false} StoreNothing(values: map<string, Existing>, text: string)
    ensures Store(values, Matches(text, |text| + 1)) == Some(values)
  {
  }

  method ParseStringsFile(source: string) returns (r: Option<map<string, Existing>>)
    ensures r == Parsed(source)
  {
    hide MatchAt, ParseMatch, Matches, Store, Parsed;
    var values: map<string, Existing> := map[];
    var from := 0;
    ParsedIsStored(source);
    while from <= |source|
      invariant from <= |source| + 1
      invariant Store(values, Matches(source, from)) == Parsed(source)
      decreases |source| - from
    {
      MatchesFrom(source, from);
      match MatchAt(source, from) {
        case None => from := from + 1;
        case Some(found) =>
          StoreStep(values, found.entry, Matches(source, found.end));
          match ParseMatch(found.entry) {
            case None => return None;
            case Some(entry) => values := values[entry.0 := entry.1];
          }
          from := found.end;
      }
    }
    StoreNothing(values, source);
    r := Some(values);
  }

  // ---------------------------------------------------------------------------------------
  // Parsing what was printed

  function PrintedMatch(line: Line): Match {
    Match(Some(Stringify(line.source)), Stringify(line.key), Stringify(line.value))
  }

  function PrintedMatches(lines: seq<Line>): seq<Match> {
    if lines == [] then [] else [PrintedMatch(lines[0])] + PrintedMatches(lines[1..])
  }

  lemma {:induction false} PrintStep(lines: seq<Line>)
    requires |lines| >= 2
    ensures Print(lines) == LineText(lines[0]) + ("\n" + Print(lines[1..]))
  {
    hide LineText;
    assert LineTexts(lines)[1..] == LineTexts(lines[1..]);
    assert LineTexts(lines)[0] == LineText(lines[0]);
    assert |LineTexts(lines)| >= 2 by {
      assert lines[1..] != [];
    }
    var a, b := LineText(lines[0]), Join(LineTexts(lines[1..]));
    assert (a + ("\n" + b)) + "\n" == a + ("\n" + (b + "\n"));
  }

  lemma {:induction false} CommentMatches(text: string, i: nat, line: Line)
    requires LineStart(text, i) && Stands(text, i, LineText(line))
    ensures CommentAt(text, i) == Some((Stringify(line.source), i + |LineText(line)| - |Assigned(line)|))
    ensures Stands(text, i + |LineText(line)| - |Assigned(line)|, Assigned(line))
    ensures LineStart(text, i + |LineText(line)| - |Assigned(line)|)
  {
    hide Stands, Assigned, Stringify, LiteralEnd;
    var a, b := Stringify(line.source), Assigned(line);
    StandsSplit(text, i, COMMENT, a + (" */\n" + b));
    StandsSplit(text, i + |COMMENT|, a, " */\n" + b);
    StandsSplit(text, i + |COMMENT| + |a|, " */\n", b);
    LiteralFound(text, i + |COMMENT|, line.source);
    StandsAt(text, i + |COMMENT| + |a|, " */\n", 3);
    StandsInside(text, i + |COMMENT| + |a|, " */\n");
  }

  lemma {:induction false} StandsInside(text: string, i: nat, w: string)
    requires Stands(text, i, w)
    ensures i + |w| <= |text|
  {
  }

  lemma {:induction false} NoSpace(text: string, i: nat)
    requires i < |text| && !IsSpace(text[i])
    ensures SkipSpace(text, i) == i
  {
  }

  lemma {:induction false} OneSpace(text: string, i: nat)
    requires i + 1 < |text| && text[i] == ' ' && !IsSpace(text[i + 1])
    ensures SkipSpace(text, i) == i + 1
  {
  }

  lemma {:induction false} LiteralStarts(text: string, i: nat, v: string)
    requires Stands(text, i, Stringify(v))
    ensures i < |text| && text[i] == '\"' && !IsSpace(text[i])
  {
    StandsAt(text, i, Stringify(v), 0);
  }

  lemma {:induction false} AssignmentMatches(text: string, i: nat, line: Line, comment: Option<string>)
    requires LineStart(text, i) && Stands(text, i, Assigned(line))
    ensures AssignmentAt(text, i, comment)
            == Some(Found(Match(comment, Stringify(line.key), Stringify(line.value)), i + |Assigned(line)|))
  {
    hide Stands, Stringify, LiteralEnd, SkipSpace, LineStart, IsSpace;
    var k, v := Stringify(line.key), Stringify(line.value);
    StandsSplit(text, i, k, " = " + (v + ";"));
    StandsSplit(text, i + |k|, " = ", v + ";");
    StandsSplit(text, i + |k| + 3, v, ";");
    LiteralStarts(text, i, line.key);
    NoSpace(text, i);
    LiteralFound(text, i, line.key);
    EqualsSign(text, i + |k|);
    LiteralStarts(text, i + |k| + 3, line.value);
    OneSpace(text, i + |k| + 2);
    LiteralFound(text, i + |k| + 3, line.value);
    StandsInside(text, i + |k| + 3 + |v|, ";");
    StandsAt(text, i + |k| + 3 + |v|, ";", 0);
  }

  lemma {:induction false} EqualsSign(text: string, i: nat)
    requires Stands(text, i, " = ")
    ensures i + 3 <= |text| && text[i + 1] == '=' && text[i + 2] == ' ' && SkipSpace(text, i) == i + 1
  {
    StandsAt(text, i, " = ", 0);
    StandsAt(text, i, " = ", 1);
    StandsAt(text, i, " = ", 2);
    OneSpace(text, i);
  }

  lemma {:induction false} LineMatches(text: string, i: nat, line: Line)
    requires LineStart(text, i) && Stands(text, i, LineText(line))
    ensures MatchAt(text, i) == Some(Found(PrintedMatch(line), i + |LineText(line)|))
  {
    hide Stands, Stringify, LineStart, CommentAt, AssignmentAt, LineText, Assigned;
    CommentMatches(text, i, line);
    AssignmentMatches(text, i + |LineText(line)| - |Assigned(line)|, line, Some(Stringify(line.source)));
  }

  /** Between the end of a line and the start of the next there is no match. */
  lemma {:induction false} NoMatchAtBreak(text: string, i: nat)
    requires 0 < i < |text| && text[i - 1] == ';' && text[i] == '\n'
    ensures Matches(text, i) == Matches(text, i + 1) && LineStart(text, i + 1)
  {
    assert MatchAt(text, i) == None;
  }

  lemma {:induction false} NoMatchAtEnd(text: string)
    ensures Matches(text, |text|) == []
  {
    assert MatchAt(text, |text|) == None;
  }

  lemma {:induction false} LineEndsInSemicolon(line: Line)
    ensures |LineText(line)| > 0 && LineText(line)[|LineText(line)| - 1] == ';'
  {
    hide Stringify;
  }

  /** One printed line with its line break. */
  lemma {:induction false} MatchesLine(text: string, i: nat, line: Line)
    requires LineStart(text, i) && Stands(text, i, LineText(line)) && Stands(text, i + |LineText(line)|, "\n")
    ensures var next := i + |LineText(line)| + 1;
            next <= |text| && LineStart(text, next) && Matches(text, i) == [PrintedMatch(line)] + Matches(text, next)
  {
    hide LineText, PrintedMatch, MatchAt, Matches, LineStart, Stands;
    var t := LineText(line);
    LineMatches(text, i, line);
    LineEndsInSemicolon(line);
    StandsAt(text, i, t, |t| - 1);
    StandsInside(text, i + |t|, "\n");
    StandsAt(text, i + |t|, "\n", 0);
    NoMatchAtBreak(text, i + |t|);
    MatchesFrom(text, i);
  }

  lemma {:induction false} PrintedTextMatches(text: string, i: nat, lines: seq<Line>)
    requires lines != [] && LineStart(text, i) && Stands(text, i, Print(lines)) && i + |Print(lines)| == |text|
    ensures Matches(text, i) == PrintedMatches(lines)
    decreases |lines|
  {
    hide LineStart, LineText, Stands, Matches, PrintedMatch;
    var t := LineText(lines[0]);
    if |lines| == 1 {
      assert LineTexts(lines) == [t];
      assert Print(lines) == t + "\n";
      StandsSplit(text, i, t, "\n");
      MatchesLine(text, i, lines[0]);
      NoMatchAtEnd(text);
      assert PrintedMatches(lines[1..]) == [];
    } else {
      hide Print;
      PrintStep(lines);
      StandsSplit(text, i, t, "\n" + Print(lines[1..]));
      StandsSplit(text, i + |t|, "\n", Print(lines[1..]));
      MatchesLine(text, i, lines[0]);
      PrintedTextMatches(text, i + |t| + 1, lines[1..]);
    }
  }

  lemma {:induction false} MatchesOfPrint(lines: seq<Line>)
    ensures Matches(Print(lines), 0) == PrintedMatches(lines)
  {
    if lines == [] {
      assert Print(lines) == "\n";
      assert SkipSpace("\n", 0) == 1;
      assert MatchAt("\n", 0) == None;
      NoMatchAtEnd("\n");
    } else {
      PrintedTextMatches(Print(lines), 0, lines);
    }
  }

  // ---------------------------------------------------------------------------------------
  // The map a printed file is read back as

  function Kept(line: Line): Existing {
    Existing(Some(line.source), line.value)
  }

  /** The last line with the key, as a map entry. */
  function LastWins(values: map<string, Existing>, lines: seq<Line>): map<string, Existing>
    decreases |lines|
  {
    if lines == [] then values else LastWins(values[lines[0].key := Kept(lines[0])], lines[1..])
  }

  lemma {:induction false} StorePrinted(values: map<string, Existing>, lines: seq<Line>)
    ensures Store(values, PrintedMatches(lines)) == Some(LastWins(values, lines))
    decreases |lines|
  {
    if lines != [] {
      hide ParseLiteral, Stringify;
      var line := lines[0];
      LiteralRoundTrip(line.key);
      LiteralRoundTrip(line.source);
      LiteralRoundTrip(line.value);
      assert PrintedMatches(lines)[1..] == PrintedMatches(lines[1..]);
      StorePrinted(values[line.key := Kept(line)], lines[1..]);
    }
  }

  lemma {:induction false} ParseOfPrint(lines: seq<Line>)
    ensures Parsed(Print(lines)) == Some(LastWins(map[], lines))
  {
    MatchesOfPrint(lines);
    StorePrinted(map[], lines);
  }

  /** Line `last` is the last one with its key. */
  ghost predicate IsLast(lines: seq<Line>, last: nat) {
    last < |lines| && forall j :: last < j < |lines| ==> lines[j].key != lines[last].key
  }

  lemma {:induction false} LastWinsIs(values: map<string, Existing>, lines: seq<Line>, last: nat)
    requires IsLast(lines, last)
    ensures lines[last].key in LastWins(values, lines) && LastWins(values, lines)[lines[last].key] == Kept(lines[last])
    decreases |lines|
  {
    var more := values[lines[0].key := Kept(lines[0])];
    if last == 0 {
      Untouched(more, lines[1..], lines[0].key);
    } else {
      LastWinsIs(more, lines[1..], last - 1);
    }
  }

  lemma {:induction false} Untouched(values: map<string, Existing>, lines: seq<Line>, key: string)
    ensures (forall j :: 0 <= j < |lines| ==> lines[j].key != key) ==>
              (key in LastWins(values, lines) <==> key in values)
              && (key in values ==> LastWins(values, lines)[key] == values[key])
    decreases |lines|
  {
    if lines != [] {
      Untouched(values[lines[0].key := Kept(lines[0])], lines[1..], key);
      assert forall j :: 0 <= j < |lines| - 1 ==> lines[1..][j] == lines[j + 1];
    }
  }

  // ---------------------------------------------------------------------------------------
  // Rendering

  datatype SourceEntry = SourceEntry(key: string, source: string)

  datatype Translation = Translation(id: string, source: string, translated: string)

  datatype SyncError = MissingSourceId(key: string) | Unreadable | Stale

  function Translated(entries: seq<Translation>): seq<string> {
    if entries == [] then [] else [entries[0].translated] + Translated(entries[1..])
  }

  function InfoPlistTranslationCandidates(artifact: Option<seq<Translation>>, sourceId: string,
                                          source: string): seq<string> {
    match artifact
    case Some(entries) => Translated(Filter(entries, (e: Translation) => e.id == sourceId && e.source == source))
    case None => []
  }

  predicate Usable(source: string, candidate: string) {
    Trim(candidate) != "" && Trim(candidate) != Trim(source)
  }

  function UsableOf(source: string, candidates: seq<string>): seq<string> {
    Filter(candidates, c => Usable(source, c))
  }

  /** The earlier value stands: it was made for this very source text and is not blank. */
  predicate StillStands(source: string, existing: Option<Existing>) {
    existing.Some? && existing.value.source == Some(source) && Trim(existing.value.value) != ""
  }

  function SelectInfoPlistTranslation(source: string, candidates: seq<string>, existing: Option<Existing>): string {
    var translatedCandidates := UsableOf(source, candidates);
    if |translatedCandidates| > 0 then ChooseTranslation(source, translatedCandidates)
    else if StillStands(source, existing) then existing.value.value
    else source
  }

  function Lookup<V>(values: map<string, V>, key: string): Option<V> {
    if key in values then Some(values[key]) else None
  }

  /** What does not change between two syncs of one file. */
  datatype Inputs = Inputs(sourcePath: string, sourceIds: map<string, string>, artifact: Option<seq<Translation>>)
  {
    function SourceId(source: string): string {
      var key := sourcePath + "\0" + source;
      if key in sourceIds then sourceIds[key] else ""
    }

    function Candidates(source: string): seq<string> {
      InfoPlistTranslationCandidates(artifact, SourceId(source), source)
    }

    function LineFor(entry: SourceEntry, existing: map<string, Existing>): Line {
      Line(entry.key, entry.source,
           SelectInfoPlistTranslation(entry.source, Candidates(entry.source), Lookup(existing, entry.key)))
    }

    function Lines(entries: seq<SourceEntry>, existing: map<string, Existing>): Result<seq<Line>, SyncError> {
      if entries == [] then Ok([])
      else if SourceId(entries[0].source) == "" then Err(MissingSourceId(entries[0].key))
      else
        match Lines(entries[1..], existing)
        case Ok(lines) => Ok([LineFor(entries[0], existing)] + lines)
        case Err(e) => Err(e)
    }

    function RenderInfoPlistStrings(entries: seq<SourceEntry>, existing: map<string, Existing>)
      : Result<string, SyncError>
    {
      match Lines(entries, existing)
      case Ok(lines) => Ok(Print(lines))
      case Err(e) => Err(e)
    }

    /** One file of the sync: what it holds afterwards. */
    function Sync(entries: seq<SourceEntry>, file: Option<string>, write: bool): Result<Option<string>, SyncError> {
      match Parsed(if file.Some? then file.value else "")
      case None => Err(Unreadable)
      case Some(existing) =>
        match RenderInfoPlistStrings(entries, existing)
        case Err(e) => Err(e)
        case Ok(expected) =>
          if file == Some(expected) then Ok(file)
          else if write then Ok(Some(expected))
          else Err(Stale)
    }
  }

  // ---------------------------------------------------------------------------------------
  // Rendering from what was rendered

  /** The last entry with the key of entry i, looked for from j backwards. */
  function LastFor(entries: seq<SourceEntry>, i: nat, j: nat): (last: nat)
    requires i <= j < |entries|
    ensures i <= last <= j && entries[last].key == entries[i].key
    ensures forall k :: last < k <= j ==> entries[k].key != entries[i].key
  {
    if entries[j].key == entries[i].key then j else LastFor(entries, i, j - 1)
  }

  /** Entry i takes over an earlier value that the next rendering no longer finds: the last entry with
      its key has another source text. */
  predicate TakesOverInVain(inputs: Inputs, entries: seq<SourceEntry>, existing: map<string, Existing>, i: nat)
    requires i < |entries|
  {
    var entry := entries[i];
    && entries[LastFor(entries, i, |entries| - 1)].source != entry.source
    && UsableOf(entry.source, inputs.Candidates(entry.source)) == []
    && StillStands(entry.source, Lookup(existing, entry.key))
    && existing[entry.key].value != entry.source
  }

  lemma {:induction false} LinesAre(inputs: Inputs, entries: seq<SourceEntry>, existing: map<string, Existing>)
    ensures inputs.Lines(entries, existing).Ok?
            <==> forall i :: 0 <= i < |entries| ==> inputs.SourceId(entries[i].source) != ""
    ensures inputs.Lines(entries, existing).Ok? ==>
              var lines := inputs.Lines(entries, existing).value;
              |lines| == |entries| && forall i :: 0 <= i < |lines| ==> lines[i] == inputs.LineFor(entries[i], existing)
    decreases |entries|
  {
    hide inputs.LineFor, inputs.SourceId;
    if entries != [] {
      LinesAre(inputs, entries[1..], existing);
      assert entries == [entries[0]] + entries[1..];
    }
  }

  /** What is selected again when the earlier value is the one just written for `written`. */
  lemma {:induction false} SelectAgain(source: string, candidates: seq<string>, existing: Option<Existing>,
                                       written: string)
    ensures var value := SelectInfoPlistTranslation(source, candidates, existing);
            && SelectInfoPlistTranslation(source, candidates, Some(Existing(Some(source), value))) == value
            && (written != source ==>
                  (SelectInfoPlistTranslation(source, candidates, Some(Existing(Some(written), value))) == value
                   <==> !(UsableOf(source, candidates) == [] && StillStands(source, existing)
                          && existing.value.value != source)))
  {
    hide Trim, ChooseTranslation, UsableOf;
  }

  lemma {:induction false} TranslatedCount(entries: seq<Translation>, v: string)
    ensures Occurrences(Translated(entries), v) == |Filter(entries, (e: Translation) => e.translated == v)|
  {
    if entries != [] {
      TranslatedCount(entries[1..], v);
      FilterFirst(entries, (e: Translation) => e.translated == v);
    }
  }

  lemma {:induction false} FilterFirst<T(!new)>(s: seq<T>, keep: T -> bool)
    requires s != []
    ensures Filter(s, keep) == (if keep(s[0]) then [s[0]] else []) + Filter(s[1..], keep)
  {
    if |s| > 1 {
      FilterFirst(s[..|s| - 1], keep);
      assert s[..|s| - 1][1..] == s[1..][..|s| - 2];
    }
  }

  lemma {:induction false} FilterTwice<T(!new)>(s: seq<T>, first: T -> bool, second: T -> bool, both: T -> bool)
    requires forall x :: both(x) <==> first(x) && second(x)
    ensures Filter(Filter(s, first), second) == Filter(s, both)
  {
    if s != [] {
      FilterTwice(s[..|s| - 1], first, second, both);
    }
  }

  /** The candidates hold every text as often as the artifact has it for this id and source text. */
  lemma {:induction false} CandidatesCount(artifact: Option<seq<Translation>>, id: string, source: string, v: string)
    ensures Occurrences(InfoPlistTranslationCandidates(artifact, id, source), v)
            == if artifact.Some?
               then |Filter(artifact.value,
                            (e: Translation) => e.id == id && e.source == source && e.translated == v)|
               else 0
  {
    if artifact.Some? {
      var first := (e: Translation) => e.id == id && e.source == source;
      TranslatedCount(Filter(artifact.value, first), v);
      FilterTwice(artifact.value, first, (e: Translation) => e.translated == v,
                  (e: Translation) => e.id == id && e.source == source && e.translated == v);
    }
  }

  /** A candidate that is neither blank nor the source text again. */
  predicate IsTranslation(source: string, c: string) {
    Trim(c) != "" && Trim(c) != Trim(source)
  }

  /** What is selected: the best candidate that is a translation; when there is none, the earlier value,
      if it was made for this source text and is not blank; otherwise the source text. */
  lemma {:induction false} SelectsBest(source: string, candidates: seq<string>, existing: Option<Existing>)
    ensures var value := SelectInfoPlistTranslation(source, candidates, existing);
            if exists c :: c in candidates && IsTranslation(source, c) then
              && value in candidates && IsTranslation(source, value)
              && forall c :: c in candidates && IsTranslation(source, c) && c != value ==>
                   Better(source, candidates, value, c)
            else if existing.Some? && existing.value.source == Some(source) && Trim(existing.value.value) != "" then
              value == existing.value.value
            else value == source
  {
    var usable := UsableOf(source, candidates);
    hide Trim, ChooseTranslation;
    if usable != [] {
      assert usable[0] in usable;
      AppleChooses(source, usable);
      forall c | c in usable
        ensures Occurrences(usable, c) == Occurrences(candidates, c)
      {
        FilterCounts(candidates, c => Usable(source, c), c);
      }
    }
  }

  /** The other value of a last entry with another source text plays no part. */
  lemma {:induction false} SelectIgnoresValue(source: string, candidates: seq<string>, written: string, v: string,
                                              w: string)
    requires written != source
    ensures SelectInfoPlistTranslation(source, candidates, Some(Existing(Some(written), v)))
            == SelectInfoPlistTranslation(source, candidates, Some(Existing(Some(written), w)))
  {
    hide Trim, ChooseTranslation, UsableOf;
  }

  lemma {:induction false} LineAgain(inputs: Inputs, entries: seq<SourceEntry>, existing: map<string, Existing>,
                                     lines: seq<Line>, i: nat)
    requires inputs.Lines(entries, existing) == Ok(lines) && i < |entries|
    ensures |lines| == |entries|
    ensures inputs.LineFor(entries[i], LastWins(map[], lines)) == lines[i]
            <==> !TakesOverInVain(inputs, entries, existing, i)
  {
    hide SelectInfoPlistTranslation, inputs.Candidates, Trim, UsableOf, LastWins;
    LinesAre(inputs, entries, existing);
    hide inputs.Lines, inputs.SourceId;
    var entry := entries[i];
    var last := LastFor(entries, i, |entries| - 1);
    var candidates := inputs.Candidates(entry.source);
    LastWinsIs(map[], lines, last);
    SelectAgain(entry.source, candidates, Lookup(existing, entry.key), entries[last].source);
    if entries[last].source != entry.source {
      SelectIgnoresValue(entry.source, candidates, entries[last].source, lines[i].value, lines[last].value);
    }
  }

  lemma {:induction false} LinesAgain(inputs: Inputs, entries: seq<SourceEntry>, existing: map<string, Existing>,
                                      lines: seq<Line>)
    requires inputs.Lines(entries, existing) == Ok(lines)
    ensures inputs.Lines(entries, LastWins(map[], lines)).Ok?
    ensures inputs.Lines(entries, LastWins(map[], lines)) == Ok(lines)
            <==> forall i :: 0 <= i < |entries| ==> !TakesOverInVain(inputs, entries, existing, i)
  {
    var again := LastWins(map[], lines);
    LinesAre(inputs, entries, existing);
    LinesAre(inputs, entries, again);
    hide inputs.Lines, inputs.LineFor, TakesOverInVain, LastWins;
    var next := inputs.Lines(entries, again).value;
    forall i | 0 <= i < |entries|
      ensures next[i] == lines[i] <==> !TakesOverInVain(inputs, entries, existing, i)
    {
      LineAgain(inputs, entries, existing, lines, i);
    }
    if forall i :: 0 <= i < |entries| ==> !TakesOverInVain(inputs, entries, existing, i) {
      assert next == lines;
    }
  }

  lemma {:induction false} PrintedMatchesDiffer(a: seq<Line>, b: seq<Line>)
    requires PrintedMatches(a) == PrintedMatches(b)
    ensures a == b
    decreases |a|
  {
    if a != [] && b != [] {
      assert PrintedMatches(a)[0] == PrintedMatches(b)[0] && PrintedMatches(a)[1..] == PrintedMatches(b)[1..];
      assert PrintedMatches(a)[1..] == PrintedMatches(a[1..]) && PrintedMatches(b)[1..] == PrintedMatches(b[1..]);
      PrintedMatchesDiffer(a[1..], b[1..]);
      hide PrintedMatches, Stringify, ParseLiteral;
      LiteralRoundTrip(a[0].key);
      LiteralRoundTrip(a[0].source);
      LiteralRoundTrip(a[0].value);
      LiteralRoundTrip(b[0].key);
      LiteralRoundTrip(b[0].source);
      LiteralRoundTrip(b[0].value);
      assert a == [a[0]] + a[1..] && b == [b[0]] + b[1..];
    }
  }

  /** Different entries are never printed alike. */
  lemma {:induction false} PrintIsInjective(a: seq<Line>, b: seq<Line>)
    requires Print(a) == Print(b)
    ensures a == b
  {
    MatchesOfPrint(a);
    MatchesOfPrint(b);
    PrintedMatchesDiffer(a, b);
  }

  // ---------------------------------------------------------------------------------------
  // Main results

  lemma {:induction false} KeptOfLast(lines: seq<Line>, i: nat) returns (last: nat)
    requires i < |lines|
    ensures i <= last < |lines| && lines[last].key == lines[i].key
    ensures lines[i].key in LastWins(map[], lines) && LastWins(map[], lines)[lines[i].key] == Kept(lines[last])
    decreases |lines| - i
  {
    hide LastWins;
    if j :| i < j < |lines| && lines[j].key == lines[i].key {
      last := KeptOfLast(lines, j);
    } else {
      last := i;
      LastWinsIs(map[], lines, i);
    }
  }

  /** Lines with the same key are the same. */
  ghost predicate KeysAgree(lines: seq<Line>) {
    forall i, j :: 0 <= i < j < |lines| && lines[i].key == lines[j].key ==> lines[i] == lines[j]
  }

  /** Every line is kept, with its source text and value. */
  ghost predicate AllKept(lines: seq<Line>, values: map<string, Existing>) {
    forall i :: 0 <= i < |lines| ==> lines[i].key in values && values[lines[i].key] == Kept(lines[i])
  }

  /** Parsing a printed file never fails.  It finds the printed keys and no others, and gives back the
      source text and value of every line exactly when lines with the same key are the same. */
  lemma {:induction false} PrintParseRoundTrip(lines: seq<Line>)
    ensures Parsed(Print(lines)).Some?
    ensures forall key :: key in Parsed(Print(lines)).value <==> exists i :: 0 <= i < |lines| && lines[i].key == key
    ensures AllKept(lines, Parsed(Print(lines)).value) <==> KeysAgree(lines)
  {
    ParseOfPrint(lines);
    hide Parsed, Print, LastWins;
    var values := LastWins(map[], lines);
    forall i | 0 <= i < |lines|
      ensures lines[i].key in values
      ensures KeysAgree(lines) ==> values[lines[i].key] == Kept(lines[i])
    {
      var last := KeptOfLast(lines, i);
    }
    forall key | key in values
      ensures exists i :: 0 <= i < |lines| && lines[i].key == key
    {
      Untouched(map[], lines, key);
    }
  }

  /** With distinct keys nothing is lost. */
  lemma {:induction false} DistinctKeysRoundTrip(lines: seq<Line>)
    requires forall i, j :: 0 <= i < j < |lines| ==> lines[i].key != lines[j].key
    ensures Parsed(Print(lines)).Some? && AllKept(lines, Parsed(Print(lines)).value)
  {
    PrintParseRoundTrip(lines);
    hide Parsed, Print;
  }

  /** The entries a file is read as, when it can be read. */
  function EarlierContent(file: Option<string>): Option<map<string, Existing>> {
    Parsed(if file.Some? then file.value else "")
  }

  lemma {:induction false} WrittenIsPrinted(inputs: Inputs, entries: seq<SourceEntry>,
                                            file: Option<string>) returns (lines: seq<Line>)
    requires inputs.Sync(entries, file, true).Ok?
    ensures EarlierContent(file).Some? && inputs.Lines(entries, EarlierContent(file).value) == Ok(lines)
    ensures inputs.Sync(entries, file, true) == Ok(Some(Print(lines)))
  {
    hide Parsed, Print;
    lines := inputs.Lines(entries, EarlierContent(file).value).value;
  }

  lemma {:induction false} SyncOfPrinted(inputs: Inputs, entries: seq<SourceEntry>, lines: seq<Line>, write: bool)
    requires inputs.Lines(entries, LastWins(map[], lines)).Ok?
    ensures var next := inputs.Lines(entries, LastWins(map[], lines)).value;
            inputs.Sync(entries, Some(Print(lines)), write)
            == if next == lines then Ok(Some(Print(lines))) else if write then Ok(Some(Print(next))) else Err(Stale)
  {
    var next := inputs.Lines(entries, LastWins(map[], lines)).value;
    ParseOfPrint(lines);
    hide Parsed, Print, LastWins, inputs.Lines;
    if Print(next) == Print(lines) {
      PrintIsInjective(next, lines);
    }
  }

  /** The first entry without an id is named, and then nothing is rendered. */
  lemma {:induction false} MissingIdIsNamed(inputs: Inputs, entries: seq<SourceEntry>, existing: map<string, Existing>,
                                            i: nat)
    requires i < |entries| && inputs.SourceId(entries[i].source) == ""
    requires forall j :: 0 <= j < i ==> inputs.SourceId(entries[j].source) != ""
    ensures inputs.Lines(entries, existing) == Err(MissingSourceId(entries[i].key))
    decreases i
  {
    hide inputs.SourceId;
    if i > 0 {
      assert forall j :: 0 <= j < i - 1 ==> entries[1..][j] == entries[j + 1];
      MissingIdIsNamed(inputs, entries[1..], existing, i - 1);
    }
  }

  /** A check changes nothing; it passes exactly when a write would change nothing either, and fails with
      the error of the write if that has one. */
  lemma {:induction false} CheckMeansUnchanged(inputs: Inputs, entries: seq<SourceEntry>, file: Option<string>)
    ensures inputs.Sync(entries, file, false).Ok? <==> inputs.Sync(entries, file, true) == Ok(file)
    ensures inputs.Sync(entries, file, false).Ok? ==> inputs.Sync(entries, file, false).value == file
    ensures inputs.Sync(entries, file, true).Err? ==>
              inputs.Sync(entries, file, false) == inputs.Sync(entries, file, true)
  {
    hide Parsed, Print, inputs.Lines;
  }

  /** Checking right after writing passes exactly when no entry took over an earlier value in vain;
      otherwise the check calls the file stale. */
  lemma {:induction false} CheckAfterWrite(inputs: Inputs, entries: seq<SourceEntry>, file: Option<string>)
    requires inputs.Sync(entries, file, true).Ok?
    ensures EarlierContent(file).Some?
    ensures var after := inputs.Sync(entries, file, true).value;
            inputs.Sync(entries, after, false)
            == if forall i :: 0 <= i < |entries| ==> !TakesOverInVain(inputs, entries, EarlierContent(file).value, i)
               then Ok(after) else Err(Stale)
  {
    var lines := WrittenIsPrinted(inputs, entries, file);
    LinesAgain(inputs, entries, EarlierContent(file).value, lines);
    SyncOfPrinted(inputs, entries, lines, false);
    hide Parsed, Print, LastWins, inputs.Lines, inputs.Sync, EarlierContent, TakesOverInVain;
  }

  lemma {:induction false} NothingInVainAfterWrite(inputs: Inputs, entries: seq<SourceEntry>,
                                                   existing: map<string, Existing>,
                                lines: seq<Line>, i: nat)
    requires inputs.Lines(entries, existing) == Ok(lines) && i < |entries|
    ensures !TakesOverInVain(inputs, entries, LastWins(map[], lines), i)
  {
    LinesAre(inputs, entries, existing);
    hide inputs.Lines, inputs.SourceId, LastWins, UsableOf, Trim, inputs.Candidates, SelectInfoPlistTranslation;
    var last := LastFor(entries, i, |entries| - 1);
    LastWinsIs(map[], lines, last);
  }

  /** After a second write the check passes, whatever the entries. */
  lemma {:induction false} SecondWriteSettles(inputs: Inputs, entries: seq<SourceEntry>, file: Option<string>)
    requires inputs.Sync(entries, file, true).Ok?
    ensures var once := inputs.Sync(entries, file, true).value;
            && inputs.Sync(entries, once, true).Ok?
            && var twice := inputs.Sync(entries, once, true).value;
               inputs.Sync(entries, twice, false) == Ok(twice) && inputs.Sync(entries, twice, true) == Ok(twice)
  {
    var lines := WrittenIsPrinted(inputs, entries, file);
    var existing := EarlierContent(file).value;
    LinesAgain(inputs, entries, existing, lines);
    var again := LastWins(map[], lines);
    var next := inputs.Lines(entries, again).value;
    forall i | 0 <= i < |entries|
      ensures !TakesOverInVain(inputs, entries, again, i)
    {
      NothingInVainAfterWrite(inputs, entries, existing, lines, i);
    }
    LinesAgain(inputs, entries, again, next);
    SyncOfPrinted(inputs, entries, lines, true);
    SyncOfPrinted(inputs, entries, next, true);
    SyncOfPrinted(inputs, entries, next, false);
    hide Parsed, Print, LastWins, inputs.Lines, inputs.Sync, EarlierContent, TakesOverInVain;
  }

  /** With distinct keys the first write is enough. */
  lemma {:induction false} DistinctKeysSettle(inputs: Inputs, entries: seq<SourceEntry>, file: Option<string>)
    requires forall i, j :: 0 <= i < j < |entries| ==> entries[i].key != entries[j].key
    requires inputs.Sync(entries, file, true).Ok?
    ensures inputs.Sync(entries, inputs.Sync(entries, file, true).value, false)
            == Ok(inputs.Sync(entries, file, true).value)
  {
    CheckAfterWrite(inputs, entries, file);
    hide Parsed, inputs.Sync, EarlierContent;
    forall i | 0 <= i < |entries|
      ensures !TakesOverInVain(inputs, entries, EarlierContent(file).value, i)
    {
      var last := LastFor(entries, i, |entries| - 1);
      assert last == i;
    }
  }

  const CAMERA := "NSCameraUsageDescription"

  /** A file that is stale right after it was written: two entries share a key, and the first takes over
      its earlier value. */
  lemma {:induction false} DuplicateKeyIsStale()
    ensures var inputs := Inputs("p", map["p\0a" := "1", "p\0b" := "2"], None);
            var entries := [SourceEntry(CAMERA, "a"), SourceEntry(CAMERA, "b")];
            var file := Some(Print([Line(CAMERA, "a", "x")]));
            && inputs.Sync(entries, file, true).Ok?
            && inputs.Sync(entries, inputs.Sync(entries, file, true).value, false) == Err(Stale)
  {
    var inputs := Inputs("p", map["p\0a" := "1", "p\0b" := "2"], None);
    var entries := [SourceEntry(CAMERA, "a"), SourceEntry(CAMERA, "b")];
    var lines := [Line(CAMERA, "a", "x")];
    var file := Some(Print(lines));
    var existing := LastWins(map[], lines);
    hide Parsed, Print, LastWins, inputs.Lines, inputs.SourceId, TakesOverInVain;
    ReadBack(CAMERA, "a", "x");
    IdsFound(inputs);
    CollidingEntries(inputs, entries, existing);
    CheckAfterWrite(inputs, entries, file);
  }

  lemma {:induction false} IdsFound(inputs: Inputs)
    requires inputs.sourcePath == "p" && inputs.sourceIds == map["p\0a" := "1", "p\0b" := "2"]
    ensures inputs.SourceId("a") == "1" && inputs.SourceId("b") == "2"
  {
    assert "p" + "\0" + "a" == "p\0a" && "p" + "\0" + "b" == "p\0b";
  }

  lemma {:induction false} ReadBack(key: string, source: string, value: string)
    ensures Parsed(Print([Line(key, source, value)])) == Some(LastWins(map[], [Line(key, source, value)]))
    ensures LastWins(map[], [Line(key, source, value)]) == map[key := Existing(Some(source), value)]
  {
    ParseOfPrint([Line(key, source, value)]);
  }

  lemma {:induction false} CollidingEntries(inputs: Inputs, entries: seq<SourceEntry>, existing: map<string, Existing>)
    requires entries == [SourceEntry(CAMERA, "a"), SourceEntry(CAMERA, "b")]
             && existing == map[CAMERA := Existing(Some("a"), "x")]
    requires inputs.artifact == None && inputs.SourceId("a") != "" && inputs.SourceId("b") != ""
    ensures inputs.Lines(entries, existing).Ok? && TakesOverInVain(inputs, entries, existing, 0)
  {
    LinesAre(inputs, entries, existing);
    hide inputs.Lines, inputs.SourceId;
    assert Trim("x") == "x";
    assert LastFor(entries, 0, 1) == 1;
  }
}
