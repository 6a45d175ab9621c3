/**
 Rewriting a translated Kotlin template into a positional Android format string
 (scripts/android-app-i18n.ts).
*/
module AndroidRender {
  import opened Wrappers
  import opened Text
  import opened Sequences
  import opened KotlinTemplate
  import opened AndroidEscape

  // ---------------------------------------------------------------------------------------
  // Occurrences of a token

  /** The one-based places of `token` in `tokens`, in order. */
  function Places(tokens: seq<string>, token: string): seq<nat> {
    if tokens == [] then [] else
      var n := |tokens|;
      Places(tokens[..n - 1], token) + if tokens[n - 1] == token then [n] else []
  }

  lemma {:induction false} OccurrencesStep(tokens: seq<string>, token: string)
    requires tokens != []
    ensures var n := |tokens|;
            Occurrences(tokens, token) == Occurrences(tokens[..n - 1], token) + if tokens[n - 1] == token then 1 else 0
  {
    assert tokens == tokens[..|tokens| - 1] + [tokens[|tokens| - 1]];
  }

  lemma {:induction false} PlacesAreOccurrences(tokens: seq<string>, token: string)
    ensures |Places(tokens, token)| == Occurrences(tokens, token)
  {
    if tokens != [] {
      OccurrencesStep(tokens, token);
      PlacesAreOccurrences(tokens[..|tokens| - 1], token);
    }
  }

  /** The k-th listed place holds the token and has k occurrences before it. */
  lemma {:induction false} PlaceIsOccurrence(tokens: seq<string>, token: string, k: nat)
    requires k < |Places(tokens, token)|
    ensures var p := Places(tokens, token)[k];
            1 <= p <= |tokens| && tokens[p - 1] == token && Occurrences(tokens[..p - 1], token) == k
  {
    var n := |tokens|;
    var fewer := tokens[..n - 1];
    PlacesAreOccurrences(fewer, token);
    if k < |Places(fewer, token)| {
      PlaceIsOccurrence(fewer, token, k);
      assert fewer[..Places(fewer, token)[k] - 1] == tokens[..Places(fewer, token)[k] - 1];
    }
  }

  /** Every occurrence is listed, at the position given by the occurrences before it. */
  lemma {:induction false} OccurrenceHasPlace(tokens: seq<string>, i: nat)
    requires i < |tokens|
    ensures var k := Occurrences(tokens[..i], tokens[i]);
            k < |Places(tokens, tokens[i])| && Places(tokens, tokens[i])[k] == i + 1
  {
    var n := |tokens|;
    var fewer := tokens[..n - 1];
    PlacesAreOccurrences(fewer, tokens[i]);
    if i < n - 1 {
      OccurrenceHasPlace(fewer, i);
      assert fewer[..i] == tokens[..i];
    }
  }

  // ---------------------------------------------------------------------------------------
  // Argument indices

  /** The source argument for the j-th token of the translation: same token, same occurrence. */
  function ArgIndex(source: seq<string>, translated: seq<string>, j: nat): nat
    requires j < |translated| && multiset(source) == multiset(translated)
  {
    SameTokenSameRank(source, translated, j);
    Places(source, translated[j])[Occurrences(translated[..j], translated[j])]
  }

  lemma {:induction false} SameTokenSameRank(source: seq<string>, translated: seq<string>, j: nat)
    requires j < |translated| && multiset(source) == multiset(translated)
    ensures Occurrences(translated[..j], translated[j]) < |Places(source, translated[j])|
  {
    PlacesAreOccurrences(source, translated[j]);
    PlacesAreOccurrences(translated, translated[j]);
    OccurrenceHasPlace(translated, j);
  }

  function ArgIndices(source: seq<string>, translated: seq<string>): seq<nat>
    requires multiset(source) == multiset(translated)
  {
    seq(|translated|, j requires 0 <= j < |translated| => ArgIndex(source, translated, j))
  }

  lemma {:induction false} ArgIndexNamesToken(source: seq<string>, translated: seq<string>, j: nat)
    requires j < |translated| && multiset(source) == multiset(translated)
    ensures var i := ArgIndex(source, translated, j);
            && 1 <= i <= |source| && source[i - 1] == translated[j]
            && Occurrences(source[..i - 1], translated[j]) == Occurrences(translated[..j], translated[j])
  {
    SameTokenSameRank(source, translated, j);
    PlaceIsOccurrence(source, translated[j], Occurrences(translated[..j], translated[j]));
  }

  /** Matching back from the source finds the same pair. */
  lemma {:induction false} ArgIndexInverse(source: seq<string>, translated: seq<string>, i: nat) returns (j: nat)
    requires i < |source| && multiset(source) == multiset(translated)
    ensures j < |translated| && ArgIndex(source, translated, j) == i + 1
  {
    ArgIndexNamesToken(translated, source, i);
    j := ArgIndex(translated, source, i) - 1;
    OccurrenceHasPlace(source, i);
    ArgIndexNamesToken(source, translated, j);
  }

  /** The indices used are a permutation of 1..n. */
  lemma {:induction false} ArgIndicesArePermutation(source: seq<string>, translated: seq<string>)
    requires multiset(source) == multiset(translated)
    ensures var indices := ArgIndices(source, translated);
            && (forall i :: i in indices <==> 1 <= i <= |source|)
            && (forall j, k :: 0 <= j < k < |indices| ==> indices[j] != indices[k])
  {
    var indices := ArgIndices(source, translated);
    forall j | 0 <= j < |translated|
      ensures 1 <= indices[j] <= |source|
    {
      ArgIndexNamesToken(source, translated, j);
    }
    forall j, k | 0 <= j < k < |translated|
      ensures indices[j] != indices[k]
    {
      ArgIndexNamesToken(source, translated, j);
      ArgIndexNamesToken(source, translated, k);
      OccurrenceHasPlace(translated, j);
      OccurrenceHasPlace(translated, k);
    }
    forall i | 1 <= i <= |source|
      ensures i in indices
    {
      var j := ArgIndexInverse(source, translated, i - 1);
      assert indices[j] == i;
    }
  }

  // ---------------------------------------------------------------------------------------
  // The rendered text

  function Decimal(n: nat): (s: string)
    ensures s != [] && forall i :: 0 <= i < |s| ==> '0' <= s[i] <= '9'
  {
    if n < 10 then ['0' + n as char] else Decimal(n / 10) + ['0' + (n % 10) as char]
  }

  function Values(its: seq<Interpolation>): seq<string> {
    seq(|its|, i requires 0 <= i < |its| => its[i].value)
  }

  /** The text from `cursor` on with percent signs doubled and each token made positional. */
  function Positional(text: string, its: seq<Interpolation>, cursor: nat, indices: seq<nat>): string
    requires WellPlaced(text, its, cursor) && |indices| == |its|
    decreases |its|
  {
    if its == [] then ReplaceAll(text[cursor..], "%", "%%")
    else ReplaceAll(text[cursor..its[0].start], "%", "%%")
         + ("%" + Decimal(indices[0]) + "$s" + Positional(text, its[1..], its[0].end, indices[1..]))
  }

  ghost predicate Accepted(source: string, translated: string) {
    var s, t := Scan(source, 0), Scan(translated, 0);
    s.Some? && t.Some? && multiset(Values(s.value)) == multiset(Values(t.value))
  }

  /** What is rendered, before it is escaped for the resource file. */
  ghost function RenderedText(source: string, translated: string): string
    requires Accepted(source, translated)
  {
    var s, t := Scan(source, 0).value, Scan(translated, 0).value;
    ScanIsWellPlaced(translated, 0);
    if s == [] then translated
    else Positional(translated, t, 0, ArgIndices(Values(s), Values(t)))
  }

  // ---------------------------------------------------------------------------------------
  // The renderer as the program runs it

  datatype RenderError = UnbalancedPlaceholders | ChangedPlaceholders

  method TokenCounts(tokens: seq<string>) returns (counts: map<string, nat>)
    ensures forall t :: t in counts <==> t in tokens
    ensures forall t :: t in tokens ==> counts[t] == Occurrences(tokens, t)
  {
    counts := map[];
    for i := 0 to |tokens|
      invariant forall t :: t in counts <==> t in tokens[..i]
      invariant forall t :: t in counts ==> counts[t] == Occurrences(tokens[..i], t)
    {
      var token := tokens[i];
      assert tokens[..i + 1] == tokens[..i] + [token];
      counts := counts[token := (if token in counts then counts[token] else 0) + 1];
    }
    assert tokens[..|tokens|] == tokens;
  }

  lemma {:induction false} CountsDecideMultisets(a: seq<string>, b: seq<string>, ca: map<string, nat>,
                                                 cb: map<string, nat>)
    requires forall t :: t in ca <==> t in a
    requires forall t :: t in a ==> ca[t] == Occurrences(a, t)
    requires forall t :: t in cb <==> t in b
    requires forall t :: t in b ==> cb[t] == Occurrences(b, t)
    ensures ca == cb <==> multiset(a) == multiset(b)
  {
    if ca == cb {
      forall t ensures multiset(a)[t] == multiset(b)[t] {
        assert t in a <==> t in multiset(a);
        assert t in b <==> t in multiset(b);
      }
    }
    if multiset(a) == multiset(b) {
      forall t ensures t in a <==> t in b {
        assert t in a <==> t in multiset(a);
        assert t in b <==> t in multiset(b);
      }
    }
  }

  ghost predicate ListsPlaces(indices: map<string, seq<nat>>, tokens: seq<string>) {
    forall t :: (if t in indices then indices[t] else []) == Places(tokens, t)
  }

  method SourceIndices(tokens: seq<string>) returns (indices: map<string, seq<nat>>)
    ensures ListsPlaces(indices, tokens)
  {
    indices := map[];
    for i := 0 to |tokens|
      invariant ListsPlaces(indices, tokens[..i])
    {
      var token := tokens[i];
      assert tokens[..i + 1][..i] == tokens[..i];
      indices := indices[token := (if token in indices then indices[token] else []) + [i + 1]];
    }
    assert tokens[..|tokens|] == tokens;
  }

  ghost predicate Tallies(occurrences: map<string, nat>, tokens: seq<string>) {
    forall t :: (if t in occurrences then occurrences[t] else 0) == Occurrences(tokens, t)
  }

  lemma {:induction false} LookupFindsArgIndex(sourceIndices: map<string, seq<nat>>, source: seq<string>,
                                               tokens: seq<string>, k: nat)
    requires ListsPlaces(sourceIndices, source)
    requires k < |tokens| && multiset(source) == multiset(tokens)
    ensures var occurrence := Occurrences(tokens[..k], tokens[k]);
            && tokens[k] in sourceIndices && occurrence < |sourceIndices[tokens[k]]|
            && sourceIndices[tokens[k]][occurrence] == ArgIndex(source, tokens, k) > 0
  {
    SameTokenSameRank(source, tokens, k);
    ArgIndexNamesToken(source, tokens, k);
    assert (if tokens[k] in sourceIndices then sourceIndices[tokens[k]] else []) == Places(source, tokens[k]);
  }

  /** Taking one token over into the rendered text. */
  lemma {:induction false} PositionalStep(text: string, its: seq<Interpolation>, k: nat, cursor: nat, indices: seq<nat>)
    requires k < |its| == |indices| && WellPlaced(text, its[k..], cursor)
    ensures WellPlaced(text, its[k + 1..], its[k].end) && cursor <= its[k].start <= |text|
    ensures Positional(text, its[k..], cursor, indices[k..])
            == ReplaceAll(text[cursor..its[k].start], "%", "%%")
               + ("%" + Decimal(indices[k]) + "$s" + Positional(text, its[k + 1..], its[k].end, indices[k + 1..]))
  {
    var tail, tailIndices := its[k..], indices[k..];
    assert tail[0] == its[k] && tail[1..] == its[k + 1..];
    assert tailIndices[0] == indices[k] && tailIndices[1..] == indices[k + 1..];
  }

  lemma {:induction false} JoinGap(a: string, b: string, c: string, d: string)
    ensures a + (b + (c + d)) == (a + b + c) + d
  {
  }

  lemma {:induction false} TallyStep(occurrences: map<string, nat>, tokens: seq<string>, k: nat)
    requires k < |tokens| && Tallies(occurrences, tokens[..k])
    ensures var n := if tokens[k] in occurrences then occurrences[tokens[k]] else 0;
            n == Occurrences(tokens[..k], tokens[k]) && Tallies(occurrences[tokens[k] := n + 1], tokens[..k + 1])
  {
    assert tokens[..k + 1] == tokens[..k] + [tokens[k]];
  }

  lemma {:induction false} TalliesNothing()
    ensures Tallies(map[], [])
  {
  }

  /** The loop that rewrites the translation token by token; a token without a source index would
      be copied raw. */
  method Rewrite(translated: string, its: seq<Interpolation>, sourceIndices: map<string, seq<nat>>,
                 ghost source: seq<string>) returns (rendered: string)
    requires WellPlaced(translated, its, 0)
    requires multiset(source) == multiset(Values(its))
    requires ListsPlaces(sourceIndices, source)
    ensures rendered == Positional(translated, its, 0, ArgIndices(source, Values(its)))
  {
    hide ReplaceAll, Decimal, Places, Occurrences, ListsPlaces, Tallies, ArgIndex;
    TalliesNothing();
    var occurrences: map<string, nat> := map[];
    var cursor: nat := 0;
    rendered := "";
    ghost var tokens := Values(its);
    ghost var indices := ArgIndices(source, tokens);
    for k := 0 to |its|
      invariant WellPlaced(translated, its[k..], cursor)
      invariant Tallies(occurrences, tokens[..k])
      invariant rendered + Positional(translated, its[k..], cursor, indices[k..])
                == Positional(translated, its, 0, indices)
    {
      PositionalStep(translated, its, k, cursor, indices);
      LookupFindsArgIndex(sourceIndices, source, tokens, k);
      TallyStep(occurrences, tokens, k);
      var interpolation := its[k];
      var text := ReplaceAll(translated[cursor..interpolation.start], "%", "%%");
      var token := interpolation.value;
      var occurrence := if token in occurrences then occurrences[token] else 0;
      occurrences := occurrences[token := occurrence + 1];
      var index := if token in sourceIndices && occurrence < |sourceIndices[token]|
                   then sourceIndices[token][occurrence] else 0;
      var shown := if index != 0 then "%" + Decimal(index) + "$s" else token;
      JoinGap(rendered, text, shown, Positional(translated, its[k + 1..], interpolation.end, indices[k + 1..]));
      rendered := rendered + text + shown;
      cursor := interpolation.end;
    }
    rendered := rendered + ReplaceAll(translated[cursor..], "%", "%%");
  }

  method RenderAndroidResourceValue(source: string, translated: string) returns (r: Result<string, RenderError>)
    ensures r.Ok? <==> Accepted(source, translated)
    ensures r.Ok? ==> r.value == EscapeAndroidResourceValue(RenderedText(source, translated))
    ensures r == Err(UnbalancedPlaceholders) <==> Scan(source, 0).None? || Scan(translated, 0).None?
  {
    var sourceInterpolations := ReadKotlinInterpolations(source);
    var translatedInterpolations := ReadKotlinInterpolations(translated);
    if sourceInterpolations.None? || translatedInterpolations.None? {
      return Err(UnbalancedPlaceholders);
    }
    var its := translatedInterpolations.value;
    var sourceTokens := Values(sourceInterpolations.value);
    var translatedTokens := Values(its);
    var sourceCounts := TokenCounts(sourceTokens);
    var translatedCounts := TokenCounts(translatedTokens);
    CountsDecideMultisets(sourceTokens, translatedTokens, sourceCounts, translatedCounts);
    if sourceCounts != translatedCounts {
      return Err(ChangedPlaceholders);
    }
    var rendered := translated;
    if |sourceTokens| > 0 {
      ScanIsWellPlaced(translated, 0);
      var sourceIndices := SourceIndices(sourceTokens);
      rendered := Rewrite(translated, its, sourceIndices, sourceTokens);
    }
    return Ok(EscapeAndroidResourceValue(rendered));
  }

  // ---------------------------------------------------------------------------------------
  // Reading a format string

  function DigitCount(f: string): (n: nat)
    ensures n <= |f| && forall i :: 0 <= i < n ==> '0' <= f[i] <= '9'
  {
    if f != [] && '0' <= f[0] <= '9' then 1 + DigitCount(f[1..]) else 0
  }

  function NumberOf(digits: string): nat
    requires forall i :: 0 <= i < |digits| ==> '0' <= digits[i] <= '9'
  {
    var n := |digits|;
    if n == 0 then 0 else 10 * NumberOf(digits[..n - 1]) + (digits[n - 1] - '0') as nat
  }

  /** `String.format` on `%%` and `%<number>$s`; None for any other use of a percent sign. */
  function Format(f: string, args: seq<string>): Option<string>
    decreases |f|
  {
    if f == [] then Some([])
    else if f[0] != '%' then Before([f[0]], Format(f[1..], args))
    else if "%%" <= f then Before("%", Format(f[2..], args))
    else
      var d := DigitCount(f[1..]);
      var n := NumberOf(f[1..][..d]);
      if d > 0 && "$s" <= f[1 + d..] && 1 <= n <= |args|
      then Before(args[n - 1], Format(f[3 + d..], args))
      else None
  }

  function Before(s: string, r: Option<string>): Option<string> {
    if r.Some? then Some(s + r.value) else None
  }

  lemma {:induction false} NumberOfDecimal(n: nat)
    ensures NumberOf(Decimal(n)) == n
  {
    var s := Decimal(n);
    if n >= 10 {
      assert s[..|s| - 1] == Decimal(n / 10);
      NumberOfDecimal(n / 10);
    } else {
      assert s[..0] == [];
    }
  }

  lemma {:induction false} DigitCountOf(digits: string, rest: string)
    requires forall i :: 0 <= i < |digits| ==> '0' <= digits[i] <= '9'
    requires rest != [] && !('0' <= rest[0] <= '9')
    ensures DigitCount(digits + rest) == |digits|
  {
    if digits == [] {
      assert digits + rest == rest;
    } else {
      assert (digits + rest)[1..] == digits[1..] + rest;
      DigitCountOf(digits[1..], rest);
    }
  }

  lemma {:induction false} FormatFirst(c: char, rest: string, args: seq<string>)
    ensures Format((if c == '%' then "%%" else [c]) + rest, args) == Before([c], Format(rest, args))
  {
    if c == '%' {
      assert ("%%" + rest)[2..] == rest;
    } else {
      assert ([c] + rest)[1..] == rest;
    }
  }

  lemma {:induction false} DoubledFirst(text: string)
    requires text != []
    ensures ReplaceAll(text, "%", "%%") == (if text[0] == '%' then "%%" else [text[0]])
          + ReplaceAll(text[1..], "%", "%%")
  {
    assert text == [text[0]] + text[1..];
    if text[0] == '%' {
      ReplaceMatch("%", text[1..], "%%");
    } else {
      ReplaceSkip(text[0], text[1..], "%", "%%");
    }
  }

  lemma {:induction false} FormatText(text: string, f: string, args: seq<string>)
    ensures Format(ReplaceAll(text, "%", "%%") + f, args) == Before(text, Format(f, args))
  {
    if text == [] {
      assert ReplaceAll(text, "%", "%%") + f == f;
      assert Format(f, args).Some? ==> [] + Format(f, args).value == Format(f, args).value;
    } else {
      hide Format, ReplaceAll, Before;
      FormatText(text[1..], f, args);
      DoubledFirst(text);
      var first := if text[0] == '%' then "%%" else [text[0]];
      var rest := ReplaceAll(text[1..], "%", "%%");
      assert (first + rest) + f == first + (rest + f);
      FormatFirst(text[0], rest + f, args);
      BeforeTwice([text[0]], text[1..], Format(f, args));
      assert [text[0]] + text[1..] == text;
    }
  }

  lemma {:induction false} BeforeTwice(a: string, b: string, r: Option<string>)
    ensures Before(a, Before(b, r)) == Before(a + b, r)
  {
    if r.Some? {
      assert a + (b + r.value) == (a + b) + r.value;
    }
  }

  lemma {:induction false} FormatArgument(index: nat, f: string, args: seq<string>)
    requires 1 <= index <= |args|
    ensures Format("%" + Decimal(index) + "$s" + f, args) == Before(args[index - 1], Format(f, args))
  {
    var digits := Decimal(index);
    var whole := "%" + digits + "$s" + f;
    assert whole[1..] == digits + ("$s" + f);
    DigitCountOf(digits, "$s" + f);
    assert whole[1..][..|digits|] == digits;
    NumberOfDecimal(index);
    assert whole[1] == digits[0];
    assert whole[1 + |digits|..] == "$s" + f;
    assert whole[3 + |digits|..] == f;
  }

  // ---------------------------------------------------------------------------------------
  // Rendering preserves meaning

  /** What a template means once every token has a value. */
  function Evaluate(template: Template, value: string -> string): string {
    match template
    case Nil => []
    case Cons(p, rest) => (if p.Text? then PrintPiece(p) else value(PrintPiece(p))) + Evaluate(rest, value)
  }

  /** The text from `cursor` on with each token replaced by its value. */
  function Substitute(text: string, its: seq<Interpolation>, cursor: nat, value: string -> string): string
    requires WellPlaced(text, its, cursor)
    decreases |its|
  {
    if its == [] then text[cursor..]
    else text[cursor..its[0].start] + (value(its[0].value) + Substitute(text, its[1..], its[0].end, value))
  }

  lemma {:induction false} TokensAreWellPlaced(source: string, at: nat, template: Template, cursor: nat)
    requires cursor <= at <= |source| && source[at..] == Print(template)
    ensures WellPlaced(source, Tokens(template, at), cursor)
    decreases template
  {
    match template {
      case Nil =>
      case Cons(p, rest) =>
        var end := at + |PrintPiece(p)|;
        SplitHere(source, at, PrintPiece(p), Print(rest));
        TokensAreWellPlaced(source, end, rest, if p.Text? then cursor else end);
        assert !p.Text? ==> Tokens(template, at)[1..] == Tokens(rest, end);
    }
  }

  lemma {:induction false} SubstituteIsEvaluate(source: string, at: nat, template: Template, cursor: nat,
                                                value: string -> string)
    requires cursor <= at <= |source| && source[at..] == Print(template)
    requires WellPlaced(source, Tokens(template, at), cursor)
    ensures Substitute(source, Tokens(template, at), cursor, value) == source[cursor..at] + Evaluate(template, value)
    decreases template
  {
    match template {
      case Nil =>
        assert source[cursor..] == source[cursor..at] + [];
      case Cons(p, rest) =>
        var end := at + |PrintPiece(p)|;
        SplitHere(source, at, PrintPiece(p), Print(rest));
        hide Print;
        hide PrintPiece;
        if p.Text? {
          assert Tokens(template, at) == Tokens(rest, end);
          hide Tokens, Substitute, WellPlaced;
          SubstituteIsEvaluate(source, end, rest, cursor, value);
          TakeMore(source, cursor, at, end, Evaluate(rest, value));
        } else {
          var token, more := Interpolation(at, end, PrintPiece(p)), Tokens(rest, end);
          assert Tokens(template, at) == [token] + more;
          hide Tokens;
          assert WellPlaced(source, more, end) by {
            assert ([token] + more)[1..] == more;
          }
          SubstituteIsEvaluate(source, end, rest, end, value);
          SubstituteToken(source, token, more, cursor, Evaluate(rest, value), value);
        }
    }
  }

  lemma {:induction false} SubstituteToken(text: string, token: Interpolation, more: seq<Interpolation>, cursor: nat,
                                           tail: string, value: string -> string)
    requires WellPlaced(text, [token] + more, cursor) && WellPlaced(text, more, token.end)
    requires Substitute(text, more, token.end, value) == text[token.end..token.end] + tail
    ensures Substitute(text, [token] + more, cursor, value) == text[cursor..token.start] + (value(token.value) + tail)
  {
    assert ([token] + more)[1..] == more;
    assert text[token.end..token.end] + tail == tail;
  }

  lemma {:induction false} TakeMore(source: string, cursor: nat, at: nat, end: nat, rest: string)
    requires cursor <= at <= end <= |source|
    ensures source[cursor..end] + rest == source[cursor..at] + (source[at..end] + rest)
  {
  }

  function Applied(tokens: seq<string>, value: string -> string): seq<string> {
    seq(|tokens|, i requires 0 <= i < |tokens| => value(tokens[i]))
  }

  /** Formatting a positional text gives the substituted text when each index names an argument
      that holds the value of its token. */
  lemma {:induction false} FormatOfPositional(text: string, its: seq<Interpolation>, cursor: nat,
                                              indices: seq<nat>, args: seq<string>, value: string -> string)
    requires WellPlaced(text, its, cursor) && |indices| == |its|
    requires forall k :: 0 <= k < |its| ==> 1 <= indices[k] <= |args| && args[indices[k] - 1] == value(its[k].value)
    ensures Format(Positional(text, its, cursor, indices), args) == Some(Substitute(text, its, cursor, value))
    decreases |its|
  {
    if its == [] {
      FormatText(text[cursor..], [], args);
      var shown := ReplaceAll(text[cursor..], "%", "%%");
      assert shown + [] == shown;
      assert text[cursor..] + [] == text[cursor..];
    } else {
      FormatOfPositional(text, its[1..], its[0].end, indices[1..], args, value);
      var rest := Positional(text, its[1..], its[0].end, indices[1..]);
      FormatArgument(indices[0], rest, args);
      FormatText(text[cursor..its[0].start], "%" + Decimal(indices[0]) + "$s" + rest, args);
    }
  }

  lemma {:induction false} TemplateMeaning(text: string, template: Template, value: string -> string)
    requires ValidTemplate(template) && Print(template) == text
    ensures Scan(text, 0).Some? && WellPlaced(text, Scan(text, 0).value, 0)
    ensures Substitute(text, Scan(text, 0).value, 0, value) == Evaluate(template, value)
  {
    assert text[0..] == text;
    ScanOfPrint(text, 0, template);
    TokensAreWellPlaced(text, 0, template, 0);
    SubstituteIsEvaluate(text, 0, template, 0, value);
    assert text[0..0] + Evaluate(template, value) == Evaluate(template, value);
  }

  /** The main result: the rendered text, formatted with the values of the source tokens in source
      order, means what the translated template means. */
  lemma {:induction false} RenderingPreservesMeaning(source: string, translated: string, template: Template,
                                                     value: string -> string)
    requires Accepted(source, translated) && Scan(source, 0).value != []
    requires ValidTemplate(template) && Print(template) == translated
    ensures Format(RenderedText(source, translated), Applied(Values(Scan(source, 0).value), value))
            == Some(Evaluate(template, value))
  {
    var s, t := Scan(source, 0).value, Scan(translated, 0).value;
    var sourceTokens, tokens := Values(s), Values(t);
    ScanIsWellPlaced(translated, 0);
    RenderedFormats(sourceTokens, translated, t, value);
    TemplateMeaning(translated, template, value);
  }

  lemma {:induction false} RenderedFormats(sourceTokens: seq<string>, translated: string, its: seq<Interpolation>,
                                           value: string -> string)
    requires WellPlaced(translated, its, 0) && multiset(sourceTokens) == multiset(Values(its))
    ensures Format(Positional(translated, its, 0, ArgIndices(sourceTokens, Values(its))), Applied(sourceTokens, value))
            == Some(Substitute(translated, its, 0, value))
  {
    var indices := ArgIndices(sourceTokens, Values(its));
    var args := Applied(sourceTokens, value);
    forall k | 0 <= k < |its|
      ensures 1 <= indices[k] <= |args| && args[indices[k] - 1] == value(its[k].value)
    {
      ArgIndexNamesToken(sourceTokens, Values(its), k);
    }
    FormatOfPositional(translated, its, 0, indices, args, value);
  }

  /** Without interpolations the text is kept as it is, and is what the template means. */
  lemma {:induction false} PlainTextIsKept(source: string, translated: string, template: Template,
                                           value: string -> string)
    requires Accepted(source, translated) && Scan(source, 0).value == []
    requires ValidTemplate(template) && Print(template) == translated
    ensures RenderedText(source, translated) == translated == Evaluate(template, value)
  {
    var s, t := Scan(source, 0).value, Scan(translated, 0).value;
    assert |Values(t)| == |multiset(Values(t))| == |multiset(Values(s))| == 0;
    TemplateMeaning(translated, template, value);
  }

  /** Every accepted translation is a template, so the main result is about all of them. */
  lemma {:induction false} AcceptedKeepsMeaning(source: string, translated: string,
                                                value: string -> string) returns (template: Template)
    requires Accepted(source, translated)
    ensures ValidTemplate(template) && Print(template) == translated
    ensures var tokens := Values(Scan(source, 0).value);
            if tokens == [] then RenderedText(source, translated) == Evaluate(template, value)
            else Format(RenderedText(source, translated), Applied(tokens, value)) == Some(Evaluate(template, value))
  {
    template := TemplateOfScan(translated, 0);
    assert translated[0..] == translated;
    if Scan(source, 0).value == [] {
      PlainTextIsKept(source, translated, template, value);
    } else {
      RenderingPreservesMeaning(source, translated, template, value);
    }
  }

  // ---------------------------------------------------------------------------------------
  // What the script reads back from a resource file

  /** Some letters n of f are line breaks in g; otherwise the two are the same. */
  ghost predicate SameButN(f: string, g: string) {
    |f| == |g| && forall i :: 0 <= i < |f| ==> g[i] == f[i] || (f[i] == 'n' && g[i] == '\n')
  }

  lemma {:induction false} SameDigits(f: string, g: string)
    requires SameButN(f, g)
    ensures DigitCount(f) == DigitCount(g) && f[..DigitCount(f)] == g[..DigitCount(f)]
  {
    if f != [] && '0' <= f[0] <= '9' {
      SameDigits(f[1..], g[1..]);
      var d := DigitCount(f[1..]);
      assert f[..d + 1] == [f[0]] + f[1..][..d] && g[..d + 1] == [g[0]] + g[1..][..d];
    }
  }

  lemma {:induction false} SameAfter(f: string, g: string, n: nat)
    requires SameButN(f, g) && n <= |f| && f[..n] == g[..n]
    ensures SameButN(f[n..], g[n..]) && (f == g <==> f[n..] == g[n..])
  {
    assert f == f[..n] + f[n..] && g == g[..n] + g[n..];
  }

  lemma {:induction false} BeforeSame(s: string, t: string, a: Option<string>, b: Option<string>)
    requires a.Some? && b.Some? && |s| == |t|
    ensures Before(s, a) == Before(t, b) <==> s == t && a == b
  {
    if Before(s, a) == Before(t, b) {
      var x := s + a.value;
      assert x == t + b.value;
      assert x[..|s|] == s == t && x[|s|..] == a.value == b.value;
    }
  }

  /** A format string shows every such change. */
  lemma {:induction false} FormatShowsChange(f: string, g: string, args: seq<string>)
    requires SameButN(f, g) && Format(f, args).Some?
    ensures Format(g, args).Some? && (Format(f, args) == Format(g, args) <==> f == g)
    decreases |f|
  {
    if f != [] {
      if f[0] != '%' {
        FormatShowsChange(f[1..], g[1..], args);
        BeforeSame([f[0]], [g[0]], Format(f[1..], args), Format(g[1..], args));
        assert f == [f[0]] + f[1..] && g == [g[0]] + g[1..];
      } else if "%%" <= f {
        assert f[1] == '%' && "%%" <= g;
        SameAfter(f, g, 2);
        FormatShowsChange(f[2..], g[2..], args);
        BeforeSame("%", "%", Format(f[2..], args), Format(g[2..], args));
      } else {
        ArgumentShowsChange(f, g, args);
      }
    }
  }

  predicate IsArgument(f: string, d: nat, args: seq<string>) {
    && 3 + d <= |f| && f[0] == '%' && d == DigitCount(f[1..]) && d > 0 && "$s" <= f[1 + d..]
    && 1 <= NumberOf(f[1..][..d]) <= |args|
  }

  lemma {:induction false} ArgumentFormats(f: string, d: nat, args: seq<string>)
    requires IsArgument(f, d, args)
    ensures Format(f, args) == Before(args[NumberOf(f[1..][..d]) - 1], Format(f[3 + d..], args))
  {
    hide NumberOf;
    assert f[1..][0] == f[1];
  }

  lemma {:induction false} FormatsAsArgument(f: string, args: seq<string>)
    requires f != [] && f[0] == '%' && !("%%" <= f) && Format(f, args).Some?
    ensures IsArgument(f, DigitCount(f[1..]), args)
  {
    hide NumberOf;
  }

  lemma {:induction false} SameArgument(f: string, g: string, d: nat, args: seq<string>)
    requires SameButN(f, g) && IsArgument(f, d, args)
    ensures IsArgument(g, d, args) && f[..3 + d] == g[..3 + d] && f[1..][..d] == g[1..][..d]
  {
    hide NumberOf;
    SameDigits(f[1..], g[1..]);
    hide DigitCount;
    assert f[1 + d..][0] == f[1 + d] && f[1 + d..][1] == f[2 + d];
    assert g[1 + d] == '$' && g[2 + d] == 's';
    forall i | 0 <= i < 3 + d
      ensures f[i] == g[i]
    {
      if 1 <= i < 1 + d {
        assert f[i] == f[1..][..d][i - 1] && g[i] == g[1..][..d][i - 1];
      }
    }
  }

  lemma {:induction false} ArgumentShowsChange(f: string, g: string, args: seq<string>)
    requires SameButN(f, g) && Format(f, args).Some? && f != [] && f[0] == '%' && !("%%" <= f)
    ensures Format(g, args).Some? && (Format(f, args) == Format(g, args) <==> f == g)
    decreases |f|, 0
  {
    var d := DigitCount(f[1..]);
    FormatsAsArgument(f, args);
    SameArgument(f, g, d, args);
    ArgumentFormats(f, d, args);
    ArgumentFormats(g, d, args);
    hide Format, NumberOf, DigitCount;
    SameAfter(f, g, 3 + d);
    FormatShowsChange(f[3 + d..], g[3 + d..], args);
    var arg := args[NumberOf(f[1..][..d]) - 1];
    BeforeSame(arg, arg, Format(f[3 + d..], args), Format(g[3 + d..], args));
  }

  predicate NoPair(s: string) {
    forall i :: 0 <= i < |s| ==> !BackslashBeforeN(s, i)
  }

  /** No stretch of the text between the tokens has a backslash directly before the letter n. */
  predicate GapsSafe(text: string, its: seq<Interpolation>, cursor: nat)
    requires WellPlaced(text, its, cursor)
    decreases |its|
  {
    if its == [] then NoPair(text[cursor..])
    else NoPair(text[cursor..its[0].start]) && GapsSafe(text, its[1..], its[0].end)
  }

  predicate Meets(a: string, b: string) {
    a != [] && b != [] && a[|a| - 1] == '\\' && b[0] == 'n'
  }

  lemma {:induction false} NoPairConcat(a: string, b: string)
    ensures NoPair(a + b) <==> NoPair(a) && NoPair(b) && !Meets(a, b)
  {
    var s := a + b;
    assert forall i :: 0 <= i < |a| ==> s[i] == a[i] && BackslashBeforeN(s, i) == BackslashBeforeN(a, i);
    assert forall i :: 0 <= i < |b| ==> s[|a| + i] == b[i];
    assert forall i :: 0 < i < |b| ==> BackslashBeforeN(s, |a| + i) == BackslashBeforeN(b, i);
    assert b != [] ==> BackslashBeforeN(s, |a|) == Meets(a, b);
    if NoPair(a) && NoPair(b) && !Meets(a, b) {
      forall i | 0 <= i < |s|
        ensures !BackslashBeforeN(s, i)
      {
        assert i > |a| ==> BackslashBeforeN(s, |a| + (i - |a|)) == BackslashBeforeN(b, i - |a|);
      }
    }
  }

  /** Doubling percent signs neither makes nor breaks a pair. */
  lemma {:induction false} NoPairDoubled(t: string)
    ensures NoPair(ReplaceAll(t, "%", "%%")) <==> NoPair(t)
    ensures |ReplaceAll(t, "%", "%%")| >= |t| && (t != [] ==> ReplaceAll(t, "%", "%%")[0] == t[0])
  {
    if t != [] {
      var rest := ReplaceAll(t[1..], "%", "%%");
      NoPairDoubled(t[1..]);
      assert t == [t[0]] + t[1..];
      var first := if t[0] == '%' then "%%" else [t[0]];
      DoubledFirst(t);
      hide ReplaceAll;
      NoPairConcat([t[0]], t[1..]);
      NoPairConcat(first, rest);
    }
  }

  lemma {:induction false} NoPairReference(index: nat)
    ensures NoPair("%" + Decimal(index) + "$s")
  {
    var s := "%" + Decimal(index) + "$s";
    forall i | 0 <= i < |s|
      ensures s[i] != 'n'
    {
      assert i > |Decimal(index)| ==> s[i] == "$s"[i - 1 - |Decimal(index)|];
      assert 0 < i <= |Decimal(index)| ==> s[i] == Decimal(index)[i - 1];
    }
  }

  lemma {:induction false} NoPairPositional(text: string, its: seq<Interpolation>, cursor: nat, indices: seq<nat>)
    requires WellPlaced(text, its, cursor) && |indices| == |its|
    ensures NoPair(Positional(text, its, cursor, indices)) <==> GapsSafe(text, its, cursor)
    decreases |its|
  {
    hide NoPair, ReplaceAll;
    if its == [] {
      NoPairDoubled(text[cursor..]);
    } else {
      var gap := ReplaceAll(text[cursor..its[0].start], "%", "%%");
      var reference := "%" + Decimal(indices[0]) + "$s";
      var rest := Positional(text, its[1..], its[0].end, indices[1..]);
      NoPairPositional(text, its[1..], its[0].end, indices[1..]);
      NoPairDoubled(text[cursor..its[0].start]);
      NoPairReference(indices[0]);
      NoPairConcat(reference, rest);
      NoPairConcat(gap, reference + rest);
      assert Positional(text, its, cursor, indices) == gap + (reference + rest);
      assert (reference + rest)[0] == '%' && reference[|reference| - 1] == 's';
    }
  }

  /** The value read back from the resource file always formats, and formats to the template's meaning
      exactly when no stretch of the translation between its tokens has a backslash directly before an n. */
  lemma {:induction false} ResourceMeaningExact(source: string, translated: string, template: Template,
                                                value: string -> string)
    requires Accepted(source, translated) && Scan(source, 0).value != []
    requires ValidTemplate(template) && Print(template) == translated
    ensures WellPlaced(translated, Scan(translated, 0).value, 0)
    ensures var text := RenderedText(source, translated);
            var shown := Format(DecodeAndroidResourceValue(Quote(EscapeAndroidResourceValue(text))),
                                Applied(Values(Scan(source, 0).value), value));
            && shown.Some?
            && (shown == Some(Evaluate(template, value)) <==> GapsSafe(translated, Scan(translated, 0).value, 0))
  {
    hide Format, Scan, ValidTemplate, Evaluate, Positional, EscapeAndroidResourceValue, DecodeAndroidResourceValue;
    var text := RenderedText(source, translated);
    ScanIsWellPlaced(translated, 0);
    ResourceRoundTrip(text);
    ResourceRoundTripExact(text);
    RenderingPreservesMeaning(source, translated, template, value);
    FormatShowsChange(text, NTurned(text), Applied(Values(Scan(source, 0).value), value));
    NoPairPositional(translated, Scan(translated, 0).value, 0,
                     ArgIndices(Values(Scan(source, 0).value), Values(Scan(translated, 0).value)));
  }

  const LOSING := "$a\\n"
  const TOKEN := Interpolation(0, 2, "$a")

  /** A pair that is accepted and loses its meaning on the way, whatever the token stands for. */
  lemma {:induction false} BackslashNChangesMeaning(template: Template, value: string -> string)
    requires ValidTemplate(template) && Print(template) == LOSING
    ensures Accepted("$a", LOSING) && Scan("$a", 0).value != []
    ensures Format(DecodeAndroidResourceValue(Quote(EscapeAndroidResourceValue(RenderedText("$a", LOSING)))),
                   Applied(Values(Scan("$a", 0).value), value)) != Some(Evaluate(template, value))
  {
    hide Scan, Print, ValidTemplate, Evaluate, Format, RenderedText, GapsSafe, WellPlaced,
         EscapeAndroidResourceValue, DecodeAndroidResourceValue;
    OneToken("$a");
    OneToken(LOSING);
    GapIsUnsafe();
    ResourceMeaningExact("$a", LOSING, template, value);
  }

  lemma {:induction false} OneToken(text: string)
    requires text == "$a" || text == LOSING
    ensures Scan(text, 0) == Some([TOKEN])
  {
    assert text[0..2] == "$a";
    assert LookAt(text, 0) == Token(2) by {
      assert NameLength(text[2..]) == 0;
    }
    if text == LOSING {
      assert Scan(text, 4) == Some([]);
      assert Scan(text, 3) == Scan(text, 4);
      assert Scan(text, 2) == Scan(text, 3);
    }
    hide NameLength, LookAt;
    assert Scan(text, 0) == Prepend(TOKEN, Scan(text, 2));
    assert [TOKEN] + [] == [TOKEN];
  }

  lemma {:induction false} GapIsUnsafe()
    ensures WellPlaced(LOSING, [TOKEN], 0) && !GapsSafe(LOSING, [TOKEN], 0)
  {
    assert [TOKEN][1..] == [];
    assert LOSING[0..2] == "$a";
    assert LOSING[2..] == "\\n" && BackslashBeforeN("\\n", 1);
  }
}
