/**
 The pattern of a `.strings` file (scripts/apple-app-i18n.ts) as a description of the texts it matches, and
 the proof that the matcher of module InfoPlistStrings finds exactly these, on any text.
*/
module StringsPattern {
  import opened Wrappers
  import opened Sequences
  import opened Text
  import opened JsonLiteral
  import opened InfoPlistStrings

  // ---------------------------------------------------------------------------------------
  // Literals

  /** Any characters but quotes and backslashes, and backslashes each with a character behind it. */
  predicate IsBody(b: string) {
    b == []
    || (b[0] != '\"' && b[0] != '\\' && IsBody(b[1..]))
    || (|b| >= 2 && b[0] == '\\' && !IsLineTerminator(b[1]) && IsBody(b[2..]))
  }

  predicate IsLiteral(w: string) {
    |w| >= 2 && w[0] == '\"' && w[|w| - 1] == '\"' && IsBody(w[1..|w| - 1])
  }

  lemma {:induction false} BodyEndExactly(text: string, i: nat, close: nat)
    ensures BodyEnd(text, i) == Some(close)
            <==> i <= close < |text| && text[close] == '\"' && IsBody(text[i..close])
    decreases |text| - i
  {
    if i < close < |text| {
      var b := text[i..close];
      assert b[0] == text[i];
      if text[i] == '\"' {
      } else if text[i] != '\\' {
        BodyEndExactly(text, i + 1, close);
        assert b[1..] == text[i + 1..close];
      } else if i + 1 < |text| && !IsLineTerminator(text[i + 1]) {
        BodyEndExactly(text, i + 2, close);
        if i + 2 <= close {
          assert b[1] == text[i + 1] && b[2..] == text[i + 2..close];
        }
      } else if i + 1 < close {
        assert b[1] == text[i + 1];
      }
    }
  }

  /** At one place there is at most one literal, and it is found. */
  lemma {:induction false} LiteralEndExactly(text: string, i: nat, end: nat)
    ensures LiteralEnd(text, i) == Some(end) <==> i <= end <= |text| && IsLiteral(text[i..end])
  {
    if i + 2 <= end <= |text| {
      var w := text[i..end];
      BodyEndExactly(text, i + 1, end - 1);
      assert w[0] == text[i] && w[|w| - 1] == text[end - 1];
      PartOfPart(text, i, end, 1, |w| - 1);
    }
  }

  // ---------------------------------------------------------------------------------------
  // Matches

  /** What a match consists of, the comment apart; the three strings are the white space in it. */
  function Assignment(m: Match, a: string, b: string, c: string): string {
    a + (m.key + (b + ("=" + (c + (m.value + ";")))))
  }

  function Comment(literal: string): string {
    "/* OpenClaw source: " + (literal + " */\n")
  }

  ghost predicate HasAssignment(text: string, i: nat, m: Match, end: nat) {
    IsLiteral(m.key) && IsLiteral(m.value)
    && exists a, b, c :: AllSpaces(a) && AllSpaces(b) && AllSpaces(c)
                         && Stands(text, i, Assignment(m, a, b, c)) && end == i + |Assignment(m, a, b, c)|
  }

  predicate HasComment(text: string, i: nat, literal: string) {
    IsLiteral(literal) && Stands(text, i, Comment(literal))
  }

  /** A match stands between `i` and `end`: at the start of a line, with or without the comment. */
  ghost predicate IsMatch(text: string, i: nat, m: Match, end: nat) {
    && (i == 0 || (i <= |text| && IsLineTerminator(text[i - 1])))
    && match m.comment
       case None => HasAssignment(text, i, m, end)
       case Some(literal) => HasComment(text, i, literal) && HasAssignment(text, i + |Comment(literal)|, m, end)
  }

  lemma {:induction false} StandsAssignment(text: string, i: nat, m: Match, a: string, b: string, c: string)
    ensures var k := i + |a|;
            var e := k + |m.key| + |b|;
            var v := e + 1 + |c|;
            Stands(text, i, Assignment(m, a, b, c)) <==>
              && Stands(text, i, a) && Stands(text, k, m.key) && Stands(text, k + |m.key|, b) && Stands(text, e, "=")
              && Stands(text, e + 1, c) && Stands(text, v, m.value) && Stands(text, v + |m.value|, ";")
    ensures |Assignment(m, a, b, c)| == |a| + |m.key| + |b| + |c| + |m.value| + 2
  {
    hide Stands;
    var k := i + |a|;
    var e := k + |m.key| + |b|;
    var v := e + 1 + |c|;
    StandsSplit(text, v, m.value, ";");
    StandsSplit(text, e + 1, c, m.value + ";");
    StandsSplit(text, e, "=", c + (m.value + ";"));
    StandsSplit(text, k + |m.key|, b, "=" + (c + (m.value + ";")));
    StandsSplit(text, k, m.key, b + ("=" + (c + (m.value + ";"))));
    StandsSplit(text, i, a, m.key + (b + ("=" + (c + (m.value + ";")))));
  }

  lemma {:induction false} SkipSpaceOver(text: string, i: nat, a: string)
    requires AllSpaces(a) && Stands(text, i, a) && i + |a| < |text| && !IsSpace(text[i + |a|])
    ensures SkipSpace(text, i) == i + |a|
    decreases |a|
  {
    hide IsSpace;
    if a != [] {
      assert text[i] == a[0];
      assert text[i + 1..i + |a|] == a[1..];
      SkipSpaceOver(text, i + 1, a[1..]);
    }
  }

  lemma {:induction false} SkippedIsSpace(text: string, i: nat)
    requires i <= |text|
    ensures AllSpaces(text[i..SkipSpace(text, i)])
    decreases |text| - i
  {
    hide IsSpace;
    if i < |text| && IsSpace(text[i]) {
      SkippedIsSpace(text, i + 1);
      var w := text[i..SkipSpace(text, i)];
      assert w == [text[i]] + text[i + 1..SkipSpace(text, i + 1)];
    }
  }

  lemma {:induction false} LiteralStandsAt(text: string, i: nat, w: string)
    requires IsLiteral(w) && Stands(text, i, w)
    ensures LiteralEnd(text, i) == Some(i + |w|) && i < |text| && text[i] == '\"' && !IsSpace(text[i])
  {
    LiteralEndExactly(text, i, i + |w|);
  }

  lemma {:induction false} StandsIs(text: string, i: nat, w: string)
    requires Stands(text, i, w)
    ensures i + |w| <= |text| && text[i..i + |w|] == w
  {
  }

  lemma {:induction false} StandsHere(text: string, i: nat, j: nat)
    requires i <= j <= |text|
    ensures Stands(text, i, text[i..j])
  {
  }

  lemma {:induction false} OneCharacter(text: string, i: nat, c: char)
    ensures Stands(text, i, [c]) <==> i < |text| && text[i] == c
  {
    if i < |text| {
      assert text[i..i + 1] == [text[i]];
    }
  }

  /** Where the parts of an assignment begin and end. */
  datatype Places = Places(key: nat, keyEnd: nat, equals: nat, value: nat, valueEnd: nat)

  /** The matcher comes past these places. */
  predicate Passes(text: string, i: nat, p: Places) {
    && i <= |text| && p.key == SkipSpace(text, i) && LiteralEnd(text, p.key) == Some(p.keyEnd)
    && p.equals == SkipSpace(text, p.keyEnd) && p.equals < |text| && text[p.equals] == '='
    && p.value == SkipSpace(text, p.equals + 1) && LiteralEnd(text, p.value) == Some(p.valueEnd)
    && p.valueEnd < |text| && text[p.valueEnd] == ';'
  }

  lemma {:induction false} AssignmentAtPlaces(text: string, i: nat, comment: Option<string>, p: Places)
    requires LineStart(text, i) && Passes(text, i, p)
    ensures AssignmentAt(text, i, comment)
            == Some(Found(Match(comment, text[p.key..p.keyEnd], text[p.value..p.valueEnd]), p.valueEnd + 1))
  {
    hide LineStart, SkipSpace, LiteralEnd;
  }

  lemma {:induction false} PlacesOfAssignment(text: string, i: nat, comment: Option<string>) returns (p: Places)
    requires AssignmentAt(text, i, comment).Some?
    ensures LineStart(text, i) && Passes(text, i, p)
    ensures AssignmentAt(text, i, comment)
            == Some(Found(Match(comment, text[p.key..p.keyEnd], text[p.value..p.valueEnd]), p.valueEnd + 1))
  {
    assert LineStart(text, i);
    hide LineStart, SkipSpace, LiteralEnd;
    var k := SkipSpace(text, i);
    var keyEnd := LiteralEnd(text, k).value;
    var e := SkipSpace(text, keyEnd);
    var v := SkipSpace(text, e + 1);
    p := Places(k, keyEnd, e, v, LiteralEnd(text, v).value);
  }

  lemma {:induction false} SpacesAndLiteral(text: string, i: nat, a: string, w: string)
    requires AllSpaces(a) && IsLiteral(w) && Stands(text, i, a) && Stands(text, i + |a|, w)
    ensures i + |a| + |w| <= |text| && SkipSpace(text, i) == i + |a|
    ensures LiteralEnd(text, i + |a|) == Some(i + |a| + |w|) && text[i + |a|..i + |a| + |w|] == w
  {
    hide IsSpace, IsLiteral, SkipSpace, LiteralEnd;
    LiteralStandsAt(text, i + |a|, w);
    SkipSpaceOver(text, i, a);
    StandsIs(text, i + |a|, w);
  }

  lemma {:induction false} ShapeIsFound(text: string, i: nat, m: Match, a: string, b: string, c: string)
    requires LineStart(text, i) && IsLiteral(m.key) && IsLiteral(m.value)
    requires AllSpaces(a) && AllSpaces(b) && AllSpaces(c) && Stands(text, i, Assignment(m, a, b, c))
    ensures AssignmentAt(text, i, m.comment) == Some(Found(m, i + |Assignment(m, a, b, c)|))
  {
    hide IsSpace, IsLiteral, AssignmentAt, LineStart, Stands, SkipSpace, LiteralEnd, Assignment, AllSpaces;
    var k := i + |a|;
    var e := k + |m.key| + |b|;
    var v := e + 1 + |c|;
    StandsAssignment(text, i, m, a, b, c);
    SpacesAndLiteral(text, i, a, m.key);
    OneCharacter(text, e, '=');
    EqualsIsNoSpace();
    SkipSpaceOver(text, k + |m.key|, b);
    SpacesAndLiteral(text, e + 1, c, m.value);
    OneCharacter(text, v + |m.value|, ';');
    AssignmentAtPlaces(text, i, m.comment, Places(k, k + |m.key|, e, v, v + |m.value|));
  }

  /** Everything that has the shape is found. */
  lemma {:induction false} AssignmentIsFound(text: string, i: nat, m: Match, end: nat)
    requires LineStart(text, i) && HasAssignment(text, i, m, end)
    ensures AssignmentAt(text, i, m.comment) == Some(Found(m, end))
  {
    hide IsLiteral, AssignmentAt, LineStart, Stands, Assignment, AllSpaces;
    var a, b, c :| AllSpaces(a) && AllSpaces(b) && AllSpaces(c)
                   && Stands(text, i, Assignment(m, a, b, c)) && end == i + |Assignment(m, a, b, c)|;
    ShapeIsFound(text, i, m, a, b, c);
  }

  lemma {:induction false} EqualsIsNoSpace()
    ensures !IsSpace('=')
  {
  }

  /** Everything that is found has the shape. */
  lemma {:induction false} AssignmentHasShape(text: string, i: nat, m: Match, end: nat)
    requires AssignmentAt(text, i, m.comment) == Some(Found(m, end))
    ensures LineStart(text, i) && HasAssignment(text, i, m, end)
  {
    hide AssignmentAt, LineStart, SkipSpace, LiteralEnd, IsLiteral, AllSpaces, Assignment, Stands, HasAssignment;
    var p := PlacesOfAssignment(text, i, m.comment);
    LiteralEndExactly(text, p.key, p.keyEnd);
    LiteralEndExactly(text, p.value, p.valueEnd);
    SkippedIsSpace(text, i);
    SkippedIsSpace(text, p.keyEnd);
    SkippedIsSpace(text, p.equals + 1);
    OneCharacter(text, p.equals, '=');
    OneCharacter(text, p.valueEnd, ';');
    StandsHere(text, i, p.key);
    StandsHere(text, p.key, p.keyEnd);
    StandsHere(text, p.keyEnd, p.equals);
    StandsHere(text, p.equals + 1, p.value);
    StandsHere(text, p.value, p.valueEnd);
    var a, b, c := text[i..p.key], text[p.keyEnd..p.equals], text[p.equals + 1..p.value];
    StandsAssignment(text, i, m, a, b, c);
    HasThisAssignment(text, i, m, a, b, c);
  }

  lemma {:induction false} HasThisAssignment(text: string, i: nat, m: Match, a: string, b: string, c: string)
    requires IsLiteral(m.key) && IsLiteral(m.value) && AllSpaces(a) && AllSpaces(b) && AllSpaces(c)
    requires Stands(text, i, Assignment(m, a, b, c))
    ensures HasAssignment(text, i, m, i + |Assignment(m, a, b, c)|)
  {
  }

  lemma {:induction false} CommentExactly(text: string, i: nat, literal: string, end: nat)
    ensures CommentAt(text, i) == Some((literal, end))
            <==> LineStart(text, i) && HasComment(text, i, literal) && end == i + |Comment(literal)|
  {
    var l := i + |COMMENT|;
    StandsSplit(text, i, COMMENT, literal + " */\n");
    StandsSplit(text, l, literal, " */\n");
    hide IsLiteral;
    if LineStart(text, i) && HasComment(text, i, literal) {
      LiteralStandsAt(text, l, literal);
    }
    if CommentAt(text, i) == Some((literal, end)) {
      LiteralEndExactly(text, l, l + |literal|);
    }
  }

  lemma {:induction false} BehindComment(text: string, i: nat, literal: string)
    requires HasComment(text, i, literal)
    ensures LineStart(text, i + |Comment(literal)|) && i < |text| && text[i] == '/'
  {
    var w := Comment(literal);
    StandsAt(text, i, w, 0);
    StandsAt(text, i, w, |w| - 1);
  }

  lemma {:induction false} NoAssignmentAtSlash(text: string, i: nat, comment: Option<string>)
    requires i < |text| && text[i] == '/'
    ensures AssignmentAt(text, i, comment) == None
  {
  }

  lemma {:induction false} KeepsComment(text: string, i: nat, comment: Option<string>)
    ensures AssignmentAt(text, i, comment).Some? ==> AssignmentAt(text, i, comment).value.entry.comment == comment
  {
  }

  lemma {:induction false} AssignmentExactly(text: string, i: nat, m: Match, end: nat)
    ensures AssignmentAt(text, i, m.comment) == Some(Found(m, end))
            <==> LineStart(text, i) && HasAssignment(text, i, m, end)
  {
    hide HasAssignment, AssignmentAt, LineStart;
    if LineStart(text, i) && HasAssignment(text, i, m, end) {
      AssignmentIsFound(text, i, m, end);
    }
    if AssignmentAt(text, i, m.comment) == Some(Found(m, end)) {
      AssignmentHasShape(text, i, m, end);
    }
  }

  /** The matcher finds a match exactly where one stands, and there is only one. */
  lemma {:induction false} MatchExactly(text: string, i: nat, m: Match, end: nat)
    ensures MatchAt(text, i) == Some(Found(m, end)) <==> IsMatch(text, i, m, end)
  {
    hide HasAssignment, HasComment, CommentAt, AssignmentAt, Comment;
    var found := CommentAt(text, i);
    AssignmentExactly(text, i, m, end);
    KeepsComment(text, i, None);
    if found.Some? {
      var literal, next := found.value.0, found.value.1;
      CommentExactly(text, i, literal, next);
      BehindComment(text, i, literal);
      NoAssignmentAtSlash(text, i, None);
      AssignmentExactly(text, next, m, end);
      KeepsComment(text, next, Some(literal));
    }
    if m.comment.Some? {
      CommentExactly(text, i, m.comment.value, i + |Comment(m.comment.value)|);
    }
  }

  // ---------------------------------------------------------------------------------------
  // The search

  datatype Place = Place(at: nat, entry: Match, end: nat)

  /** No match starts between these places. */
  ghost predicate NoMatchBetween(text: string, from: nat, to: nat) {
    forall i, m, end :: from <= i < to ==> !IsMatch(text, i, m, end)
  }

  /** The matches from `from` on, each the first one behind the one before, and none behind the last. */
  ghost predicate AreFirstMatches(text: string, from: nat, places: seq<Place>)
    decreases |places|
  {
    if places == [] then NoMatchBetween(text, from, |text| + 1)
    else
      var first := places[0];
      && from <= first.at && NoMatchBetween(text, from, first.at) && IsMatch(text, first.at, first.entry, first.end)
      && AreFirstMatches(text, first.end, places[1..])
  }

  function EntriesAt(places: seq<Place>): seq<Match> {
    seq(|places|, i requires 0 <= i < |places| => places[i].entry)
  }

  lemma {:induction false} NoMatchMeans(text: string, i: nat)
    requires MatchAt(text, i).None?
    ensures NoMatchBetween(text, i, i + 1)
  {
    hide MatchAt, IsMatch;
    forall m, end
      ensures !IsMatch(text, i, m, end)
    {
      MatchExactly(text, i, m, end);
    }
  }

  lemma {:induction false} NoMatchJoins(text: string, from: nat, i: nat, to: nat)
    requires from <= i <= to && NoMatchBetween(text, from, i) && NoMatchBetween(text, i, to)
    ensures NoMatchBetween(text, from, to)
  {
    hide IsMatch;
  }

  /** The search finds the matches of a text from left to right. */
  lemma {:induction false} MatchesAreFirst(text: string, from: nat) returns (places: seq<Place>)
    ensures AreFirstMatches(text, from, places) && Matches(text, from) == EntriesAt(places)
    decreases |text| + 1 - from
  {
    hide MatchAt, IsMatch;
    if from > |text| {
      places := [];
    } else {
      MatchesFrom(text, from);
      match MatchAt(text, from) {
        case Some(found) =>
          MatchExactly(text, from, found.entry, found.end);
          var rest := MatchesAreFirst(text, found.end);
          places := [Place(from, found.entry, found.end)] + rest;
        case None =>
          NoMatchMeans(text, from);
          places := MatchesAreFirst(text, from + 1);
          NoMatchJoins(text, from, from + 1, if places == [] then |text| + 1 else places[0].at);
      }
    }
  }

  // ---------------------------------------------------------------------------------------
  // What a file is read as

  /** The key and the entry a match is read as. */
  predicate ReadAs(m: Match, key: string, entry: Existing) {
    && ParseLiteral(m.key) == Some(key) && ParseLiteral(m.value) == Some(entry.value)
    && match m.comment
       case None => entry.source == None
       case Some(literal) => entry.source.Some? && ParseLiteral(literal) == entry.source
  }

  predicate Readable(m: Match) {
    ParseLiteral(m.key).Some? && ParseLiteral(m.value).Some?
    && (m.comment.Some? ==> ParseLiteral(m.comment.value).Some?)
  }

  lemma {:induction false} ParseMatchReads(m: Match)
    ensures ParseMatch(m).Some? <==> Readable(m)
    ensures ParseMatch(m).Some? ==> ReadAs(m, ParseMatch(m).value.0, ParseMatch(m).value.1)
    ensures forall key, entry :: ReadAs(m, key, entry) ==> ParseMatch(m) == Some((key, entry))
  {
    hide ParseLiteral;
  }

  ghost predicate HasEntry(matches: seq<Match>, key: string) {
    exists m, entry :: m in matches && ReadAs(m, key, entry)
  }

  /** The last match with this key is read as this entry. */
  ghost predicate LastReadAs(matches: seq<Match>, key: string, entry: Existing) {
    exists j :: 0 <= j < |matches| && ReadAs(matches[j], key, entry) && !HasEntry(matches[j + 1..], key)
  }

  lemma {:induction false} HasEntryFirst(matches: seq<Match>, key: string)
    requires matches != []
    ensures HasEntry(matches, key) <==> (exists entry :: ReadAs(matches[0], key, entry)) || HasEntry(matches[1..], key)
  {
    hide ReadAs;
    var first, rest := matches[0], matches[1..];
    assert forall m :: m in matches <==> m == first || m in rest;
  }

  lemma {:induction false} LastReadAsFirst(matches: seq<Match>, key: string, entry: Existing)
    requires matches != []
    ensures LastReadAs(matches, key, entry)
            <==> LastReadAs(matches[1..], key, entry)
                 || (ReadAs(matches[0], key, entry) && !HasEntry(matches[1..], key))
  {
    hide ReadAs, HasEntry;
    var rest := matches[1..];
    forall j | 0 <= j < |rest|
      ensures rest[j + 1..] == matches[j + 2..] && rest[j] == matches[j + 1]
    {
    }
    if LastReadAs(rest, key, entry) {
      var j :| 0 <= j < |rest| && ReadAs(rest[j], key, entry) && !HasEntry(rest[j + 1..], key);
      assert ReadAs(matches[j + 1], key, entry) && !HasEntry(matches[j + 1 + 1..], key);
    }
    if LastReadAs(matches, key, entry) {
      var j :| 0 <= j < |matches| && ReadAs(matches[j], key, entry) && !HasEntry(matches[j + 1..], key);
      if j > 0 {
        assert ReadAs(rest[j - 1], key, entry) && !HasEntry(rest[j - 1 + 1..], key);
      }
    }
  }

  /** Storing keeps for every key the last entry, and what was there only for the other keys. */
  lemma {:induction false} StoreKeepsLast(values: map<string, Existing>, matches: seq<Match>, key: string,
                                          entry: Existing)
    requires Store(values, matches).Some?
    ensures var stored := Store(values, matches).value;
            (key in stored && stored[key] == entry)
            <==> if HasEntry(matches, key) then LastReadAs(matches, key, entry)
                 else key in values && values[key] == entry
    decreases |matches|
  {
    hide ReadAs, HasEntry, LastReadAs;
    if matches == [] {
      assert !HasEntry(matches, key) by {
        NoEntries(key);
      }
    } else {
      ParseMatchReads(matches[0]);
      hide ParseMatch;
      var (first, read) := ParseMatch(matches[0]).value;
      StoreKeepsLast(values[first := read], matches[1..], key, entry);
      HasEntryFirst(matches, key);
      LastReadAsFirst(matches, key, entry);
      if !HasEntry(matches[1..], key) {
        NoLast(matches[1..], key, entry);
      }
    }
  }

  lemma {:induction false} NoEntries(key: string)
    ensures !HasEntry([], key)
  {
  }

  lemma {:induction false} NoLast(matches: seq<Match>, key: string, entry: Existing)
    requires !HasEntry(matches, key)
    ensures !LastReadAs(matches, key, entry)
  {
    hide ReadAs;
  }

  lemma {:induction false} StoreFails(values: map<string, Existing>, matches: seq<Match>)
    ensures Store(values, matches).Some? <==> forall m :: m in matches ==> Readable(m)
    decreases |matches|
  {
    if matches != [] {
      ParseMatchReads(matches[0]);
      hide ParseMatch, Readable;
      assert forall m :: m in matches <==> m == matches[0] || m in matches[1..];
      if ParseMatch(matches[0]).Some? {
        var (key, entry) := ParseMatch(matches[0]).value;
        StoreFails(values[key := entry], matches[1..]);
      }
    }
  }

  /** What any file is read as: for each key the entry of its last match, and nothing at all when a
      match has a literal that is no JSON. */
  lemma {:induction false} ParsedExactly(text: string) returns (places: seq<Place>)
    ensures AreFirstMatches(text, 0, places)
    ensures Parsed(text).Some? <==> forall m :: m in EntriesAt(places) ==> Readable(m)
    ensures Parsed(text).Some? ==>
              forall key, entry :: (key in Parsed(text).value && Parsed(text).value[key] == entry)
                                   <==> LastReadAs(EntriesAt(places), key, entry)
  {
    hide AreFirstMatches, Store, Matches, Readable, LastReadAs, EntriesAt, HasEntry;
    places := MatchesAreFirst(text, 0);
    var matches := EntriesAt(places);
    StoreFails(map[], matches);
    if Parsed(text).Some? {
      forall key, entry
        ensures (key in Parsed(text).value && Parsed(text).value[key] == entry) <==> LastReadAs(matches, key, entry)
      {
        StoreKeepsLast(map[], matches, key, entry);
        if !HasEntry(matches, key) {
          NoLast(matches, key, entry);
        }
      }
    }
  }
}
