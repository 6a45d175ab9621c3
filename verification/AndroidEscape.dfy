/**
 Moving text in and out of Android string resources (scripts/android-app-i18n.ts).

 Both directions are chains of whole-string replacements.  The proof follows a value through the
 chain: after each decoding step the text is again a concatenation of one block per character.
*/
module AndroidEscape {
  import opened Text

  function EscapeAndroidResourceValue(value: string): string {
    var s1 := ReplaceAll(value, "\\", "\\\\");
    var s2 := ReplaceAll(s1, "\n", "\\n");
    var s3 := ReplaceAll(s2, "'", "\\'");
    var s4 := ReplaceAll(s3, "\"", "\\\"");
    var s5 := ReplaceAll(s4, "&", "&amp;");
    var s6 := ReplaceAll(s5, "<", "&lt;");
    ReplaceAll(s6, ">", "&gt;")
  }

  function DecodeXml(value: string): string {
    var s1 := ReplaceAll(value, "&lt;", "<");
    var s2 := ReplaceAll(s1, "&gt;", ">");
    var s3 := ReplaceAll(s2, "&quot;", "\"");
    var s4 := ReplaceAll(s3, "&amp;", "&");
    var s5 := ReplaceAll(s4, "\\n", "\n");
    var s6 := ReplaceAll(s5, "\\'", "'");
    var s7 := ReplaceAll(s6, "\\\"", "\"");
    ReplaceAll(s7, "\\\\", "\\")
  }

  function DecodeAndroidResourceValue(rawValue: string): string {
    var trimmed := Trim(rawValue);
    var unquoted := if "\"" <= trimmed && trimmed[|trimmed| - 1] == '"'
                    then (if |trimmed| < 2 then "" else trimmed[1..|trimmed| - 1])
                    else trimmed;
    DecodeXml(unquoted)
  }

  function Quote(s: string): string {
    "\"" + s + "\""
  }

  // ---------------------------------------------------------------------------------------
  // What is left of each character after `stage` of the eight decoding steps

  function Block(c: char, stage: nat): (b: string)
    ensures b != []
  {
    match c
    case '<' => if stage < 1 then "&lt;" else "<"
    case '>' => if stage < 2 then "&gt;" else ">"
    case '&' => if stage < 4 then "&amp;" else "&"
    case '\n' => if stage < 5 then "\\n" else "\n"
    case '\'' => if stage < 6 then "\\'" else "'"
    case '"' => if stage < 7 then "\\\"" else "\""
    case '\\' => if stage < 8 then "\\\\" else "\\"
    case _ => [c]
  }

  /** From the fifth step on, a backslash that was followed by the letter n has lost it. */
  predicate LosesN(v: string, stage: nat) {
    stage >= 5 && |v| > 1 && v[0] == '\\' && v[1] == 'n'
  }

  function Blocks(v: string, stage: nat): string {
    if v == [] then []
    else if LosesN(v, stage) then "\\\n" + Blocks(v[2..], stage)
    else Block(v[0], stage) + Blocks(v[1..], stage)
  }

  // ---------------------------------------------------------------------------------------
  // Escaping produces the blocks of stage 0

  lemma {:induction false} EscapeConcat(a: string, b: string)
    ensures EscapeAndroidResourceValue(a + b) == EscapeAndroidResourceValue(a) + EscapeAndroidResourceValue(b)
  {
    ReplaceCharConcat(a, b, '\\', "\\\\");
    var a1, b1 := ReplaceAll(a, "\\", "\\\\"), ReplaceAll(b, "\\", "\\\\");
    ReplaceCharConcat(a1, b1, '\n', "\\n");
    var a2, b2 := ReplaceAll(a1, "\n", "\\n"), ReplaceAll(b1, "\n", "\\n");
    ReplaceCharConcat(a2, b2, '\'', "\\'");
    var a3, b3 := ReplaceAll(a2, "'", "\\'"), ReplaceAll(b2, "'", "\\'");
    ReplaceCharConcat(a3, b3, '"', "\\\"");
    var a4, b4 := ReplaceAll(a3, "\"", "\\\""), ReplaceAll(b3, "\"", "\\\"");
    ReplaceCharConcat(a4, b4, '&', "&amp;");
    var a5, b5 := ReplaceAll(a4, "&", "&amp;"), ReplaceAll(b4, "&", "&amp;");
    ReplaceCharConcat(a5, b5, '<', "&lt;");
    ReplaceCharConcat(ReplaceAll(a5, "<", "&lt;"), ReplaceAll(b5, "<", "&lt;"), '>', "&gt;");
  }

  lemma {:induction false} ReplaceAbsent(s: string, c: char, rep: string)
    requires c !in s
    ensures ReplaceAll(s, [c], rep) == s
  {
    ReplaceSkipAbsent(s, [], [c], rep);
    assert s + [] == s;
  }

  lemma {:induction false} ReplaceWhole(c: char, rep: string)
    ensures ReplaceAll([c], [c], rep) == rep
  {
    ReplaceMatch([c], [], rep);
    assert [c] + [] == [c];
  }

  lemma {:induction false} EscapeOne(c: char)
    ensures EscapeAndroidResourceValue([c]) == Block(c, 0)
  {
    hide ReplaceAll;
    if c == '\\' { ReplaceWhole(c, "\\\\"); } else { ReplaceAbsent([c], '\\', "\\\\"); }
    var s1 := if c == '\\' then "\\\\" else [c];
    if c == '\n' { ReplaceWhole(c, "\\n"); } else { ReplaceAbsent(s1, '\n', "\\n"); }
    var s2 := if c == '\n' then "\\n" else s1;
    if c == '\'' { ReplaceWhole(c, "\\'"); } else { ReplaceAbsent(s2, '\'', "\\'"); }
    var s3 := if c == '\'' then "\\'" else s2;
    if c == '"' { ReplaceWhole(c, "\\\""); } else { ReplaceAbsent(s3, '"', "\\\""); }
    var s4 := if c == '"' then "\\\"" else s3;
    if c == '&' { ReplaceWhole(c, "&amp;"); } else { ReplaceAbsent(s4, '&', "&amp;"); }
    var s5 := if c == '&' then "&amp;" else s4;
    if c == '<' { ReplaceWhole(c, "&lt;"); } else { ReplaceAbsent(s5, '<', "&lt;"); }
    var s6 := if c == '<' then "&lt;" else s5;
    if c == '>' { ReplaceWhole(c, "&gt;"); } else { ReplaceAbsent(s6, '>', "&gt;"); }
  }

  /** Escaping works character by character although the program runs seven replacements. */
  lemma {:induction false} EscapeIsBlocks(v: string)
    ensures EscapeAndroidResourceValue(v) == Blocks(v, 0)
  {
    if v != [] {
      assert v == [v[0]] + v[1..];
      EscapeConcat([v[0]], v[1..]);
      EscapeOne(v[0]);
      EscapeIsBlocks(v[1..]);
    }
  }

  // ---------------------------------------------------------------------------------------
  // The decoding steps, one by one

  /** The steps that undo `&lt;`, `&gt;` and `&amp;`. */
  predicate XmlStage(c: char, stage: nat) {
    (c == '<' && stage == 0) || (c == '>' && stage == 1) || (c == '&' && stage == 3)
  }

  lemma {:induction false} XmlBlock(x: char, t: string, c: char, stage: nat)
    requires XmlStage(c, stage)
    ensures ReplaceAll(Block(x, stage) + t, Block(c, stage), [c])
            == Block(x, stage + 1) + ReplaceAll(t, Block(c, stage), [c])
  {
    hide ReplaceAll;
    var pat, b := Block(c, stage), Block(x, stage);
    if x == c {
      ReplaceMatch(pat, t, [c]);
    } else if b[0] == '&' {
      assert (b + t)[1] == b[1] != pat[1];
      ReplaceSkipBlock(b, t, pat, [c]);
    } else {
      ReplaceSkipAbsent(b, t, pat, [c]);
    }
  }

  lemma {:induction false} XmlStep(v: string, c: char, stage: nat)
    requires XmlStage(c, stage)
    ensures ReplaceAll(Blocks(v, stage), Block(c, stage), [c]) == Blocks(v, stage + 1)
  {
    if v != [] {
      XmlStep(v[1..], c, stage);
      XmlBlock(v[0], Blocks(v[1..], stage), c, stage);
    }
  }

  lemma {:induction false} QuotStep(v: string)
    ensures ReplaceAll(Blocks(v, 2), "&quot;", "\"") == Blocks(v, 3)
  {
    if v != [] {
      QuotStep(v[1..]);
      hide ReplaceAll;
      QuotBlock(v[0], Blocks(v[1..], 2));
    }
  }

  lemma {:induction false} QuotBlock(c: char, t: string)
    ensures ReplaceAll(Block(c, 2) + t, "&quot;", "\"") == Block(c, 3) + ReplaceAll(t, "&quot;", "\"")
  {
    hide ReplaceAll;
    var b := Block(c, 2);
    if c == '&' {
      assert (b + t)[1] == 'a';
      ReplaceSkipBlock(b, t, "&quot;", "\"");
    } else {
      ReplaceSkipAbsent(b, t, "&quot;", "\"");
    }
  }

  /** Where the chain goes wrong: the second backslash of an escaped backslash and the letter n
      after it read as a line break. */
  lemma {:induction false} SecondBackslashTakesN(v: string)
    requires LosesN(v, 5)
    ensures ReplaceAll(Blocks(v, 4), "\\n", "\n") == "\\\n" + ReplaceAll(Blocks(v[2..], 4), "\\n", "\n")
  {
    hide ReplaceAll;
    var u := Blocks(v[2..], 4);
    assert v[1..][1..] == v[2..];
    assert Blocks(v[1..], 4) == "n" + u;
    assert Blocks(v, 4) == ['\\'] + ("\\n" + u);
    assert (['\\'] + ("\\n" + u))[1] == '\\';
    ReplaceSkip('\\', "\\n" + u, "\\n", "\n");
    ReplaceMatch("\\n", u, "\n");
    assert "\\" + ("\n" + ReplaceAll(u, "\\n", "\n")) == "\\\n" + ReplaceAll(u, "\\n", "\n");
  }

  lemma {:induction false} NewlineStep(v: string)
    ensures ReplaceAll(Blocks(v, 4), "\\n", "\n") == Blocks(v, 5)
  {
    if v != [] {
      var b, t := Block(v[0], 4), Blocks(v[1..], 4);
      if v[0] == '\n' {
        NewlineStep(v[1..]);
        ReplaceMatch("\\n", t, "\n");
      } else if LosesN(v, 5) {
        NewlineStep(v[2..]);
        SecondBackslashTakesN(v);
      } else {
        NewlineStep(v[1..]);
        BackslashSkip(v, 4, "\\n", "\n");
      }
    }
  }

  /** A block is copied when the text after it does not complete the pattern. */
  lemma {:induction false} BackslashSkip(v: string, stage: nat, pat: string, rep: string)
    requires v != [] && 4 <= stage <= 6
    requires |pat| == 2 && pat[0] == '\\' && pat[1] != '\\'
    requires Block(v[0], stage) != pat
    requires v[0] == '\\' && |v| > 1 ==> Blocks(v[1..], stage)[0] != pat[1]
    ensures var b, t := Block(v[0], stage), Blocks(v[1..], stage);
            ReplaceAll(b + t, pat, rep) == b + ReplaceAll(t, pat, rep)
  {
    hide ReplaceAll;
    var b, t := Block(v[0], stage), Blocks(v[1..], stage);
    if v[0] == '\\' {
      assert b + t == ['\\'] + (['\\'] + t);
      ReplaceSkip('\\', t, pat, rep);
      ReplaceSkip('\\', ['\\'] + t, pat, rep);
      assert ['\\'] + (['\\'] + ReplaceAll(t, pat, rep)) == b + ReplaceAll(t, pat, rep);
    } else if b[0] == '\\' {
      ReplaceSkipBlock(b, t, pat, rep);
    } else {
      ReplaceSkipAbsent(b, t, pat, rep);
    }
  }

  predicate QuoteStage(c: char, stage: nat) {
    (c == '\'' && stage == 5) || (c == '"' && stage == 6)
  }

  lemma {:induction false} QuoteStillEscaped(v: string, c: char, stage: nat)
    requires QuoteStage(c, stage) && v != []
    ensures Blocks(v, stage)[0] != c
  {
  }

  lemma {:induction false} QuoteBlock(v: string, c: char, stage: nat)
    requires QuoteStage(c, stage) && v != [] && !LosesN(v, stage)
    ensures var t := Blocks(v[1..], stage);
            ReplaceAll(Block(v[0], stage) + t, ['\\', c], [c])
            == Block(v[0], stage + 1) + ReplaceAll(t, ['\\', c], [c])
  {
    hide ReplaceAll;
    if v[0] == c {
      ReplaceMatch(['\\', c], Blocks(v[1..], stage), [c]);
    } else {
      if |v| > 1 {
        QuoteStillEscaped(v[1..], c, stage);
      }
      BackslashSkip(v, stage, ['\\', c], [c]);
    }
  }

  /** The two quote steps. */
  lemma {:induction false} QuoteStep(v: string, c: char, stage: nat)
    requires QuoteStage(c, stage)
    ensures ReplaceAll(Blocks(v, stage), ['\\', c], [c]) == Blocks(v, stage + 1)
  {
    if v != [] {
      if LosesN(v, stage) {
        QuoteStep(v[2..], c, stage);
        assert ("\\\n" + Blocks(v[2..], stage))[1] == '\n';
        ReplaceSkipBlock("\\\n", Blocks(v[2..], stage), ['\\', c], [c]);
      } else {
        QuoteStep(v[1..], c, stage);
        QuoteBlock(v, c, stage);
      }
    }
  }

  lemma {:induction false} BackslashStep(v: string)
    ensures ReplaceAll(Blocks(v, 7), "\\\\", "\\") == Blocks(v, 8)
  {
    if v != [] {
      if LosesN(v, 7) {
        BackslashStep(v[2..]);
        assert ("\\\n" + Blocks(v[2..], 7))[1] == '\n';
        ReplaceSkipBlock("\\\n", Blocks(v[2..], 7), "\\\\", "\\");
      } else {
        BackslashStep(v[1..]);
        if v[0] == '\\' {
          ReplaceMatch("\\\\", Blocks(v[1..], 7), "\\");
        } else {
          ReplaceSkipAbsent(Block(v[0], 7), Blocks(v[1..], 7), "\\\\", "\\");
        }
      }
    }
  }

  lemma {:induction false} DecodeXmlOfEscape(v: string)
    ensures DecodeXml(EscapeAndroidResourceValue(v)) == Blocks(v, 8)
  {
    EscapeIsBlocks(v);
    XmlStep(v, '<', 0);
    XmlStep(v, '>', 1);
    QuotStep(v);
    XmlStep(v, '&', 3);
    NewlineStep(v);
    QuoteStep(v, '\'', 5);
    QuoteStep(v, '"', 6);
    BackslashStep(v);
  }

  // ---------------------------------------------------------------------------------------
  // The round trip

  predicate BackslashBeforeN(v: string, i: nat)
    requires i < |v|
  {
    i > 0 && v[i - 1] == '\\' && v[i] == 'n'
  }

  /** The value with the n of every backslash-n pair turned into a line break. */
  function NTurned(v: string): string {
    seq(|v|, i requires 0 <= i < |v| => if BackslashBeforeN(v, i) then '\n' else v[i])
  }

  lemma {:induction false} LastBlocks(v: string)
    ensures Blocks(v, 8) == NTurned(v)
  {
    if v != [] {
      if LosesN(v, 8) {
        LastBlocks(v[2..]);
        assert NTurned(v) == "\\\n" + NTurned(v[2..]);
      } else {
        LastBlocks(v[1..]);
        assert NTurned(v) == [v[0]] + NTurned(v[1..]);
      }
    }
  }

  /** What comes back from a resource file, for every value. */
  lemma {:induction false} ResourceRoundTrip(v: string)
    ensures DecodeAndroidResourceValue(Quote(EscapeAndroidResourceValue(v))) == NTurned(v)
  {
    hide EscapeAndroidResourceValue, DecodeAndroidResourceValue, NTurned;
    SpacedRoundTrip([], v, []);
    assert [] + Quote(EscapeAndroidResourceValue(v)) + [] == Quote(EscapeAndroidResourceValue(v));
  }

  /** The shortest value that does not survive: a backslash and the letter n. */
  lemma {:induction false} BackslashNIsLost()
    ensures DecodeAndroidResourceValue(Quote(EscapeAndroidResourceValue("\\n"))) == "\\\n"
  {
    ResourceRoundTrip("\\n");
    hide EscapeAndroidResourceValue, DecodeAndroidResourceValue;
    assert NTurned("\\n") == "\\\n";
  }

  /** A value survives exactly when it has no backslash directly before the letter n. */
  lemma {:induction false} ResourceRoundTripExact(v: string)
    ensures DecodeAndroidResourceValue(Quote(EscapeAndroidResourceValue(v))) == v
            <==> forall i :: 0 <= i < |v| ==> !BackslashBeforeN(v, i)
  {
    ResourceRoundTrip(v);
    if i :| 0 <= i < |v| && BackslashBeforeN(v, i) {
      assert NTurned(v)[i] != v[i];
    }
  }

  // ---------------------------------------------------------------------------------------
  // White space around a resource, and resources without quotes

  lemma {:induction false} BlocksEnds(v: string)
    requires v != []
    ensures Blocks(v, 0) != [] && Blocks(v, 0)[0] == Block(v[0], 0)[0]
    ensures var b, last := Blocks(v, 0), Block(v[|v| - 1], 0); b[|b| - 1] == last[|last| - 1]
  {
    if |v| > 1 {
      BlocksEnds(v[1..]);
    }
  }

  /** The value starts and ends in a character that trimming its escaped form leaves alone: a line
      break is written as two visible characters. */
  predicate SurvivesTrim(v: string) {
    v == [] || (!IsStripped(v[0]) && !IsStripped(v[|v| - 1]))
  }

  predicate IsStripped(c: char) {
    IsSpace(c) && c != '\n'
  }

  predicate AllStripped(s: string) {
    forall i :: 0 <= i < |s| ==> IsStripped(s[i])
  }

  lemma {:induction false} EscapeStripped(s: string)
    requires AllStripped(s)
    ensures EscapeAndroidResourceValue(s) == s
  {
    EscapeIsBlocks(s);
    StrippedBlocks(s);
  }

  lemma {:induction false} StrippedBlocks(s: string)
    requires AllStripped(s)
    ensures Blocks(s, 0) == s
  {
    if s != [] {
      assert IsStripped(s[0]);
      StrippedBlocks(s[1..]);
    }
  }

  /** What is read back from a value that was written without quotes, for every value: white space at
      its ends is lost, a line break is not. */
  lemma {:induction false} UnquotedRoundTrip(before: string, v: string, after: string)
    requires AllStripped(before) && AllStripped(after) && SurvivesTrim(v)
    ensures DecodeAndroidResourceValue(EscapeAndroidResourceValue(before + v + after)) == NTurned(v)
  {
    var e := EscapeAndroidResourceValue(v);
    EscapeConcat(before + v, after);
    EscapeConcat(before, v);
    EscapeStripped(before);
    EscapeStripped(after);
    SpacedRoundTrip(before, v, after);
  }

  /** Quotes and the white space around them are taken off. */
  lemma {:induction false} ReadQuoted(before: string, s: string, after: string)
    requires AllSpaces(before) && AllSpaces(after)
    ensures DecodeAndroidResourceValue(before + Quote(s) + after) == DecodeXml(s)
  {
    hide DecodeXml, Trim;
    TrimSpaced(before, Quote(s), after);
    assert Quote(s)[1..|Quote(s)| - 1] == s;
  }

  predicate IsQuoted(s: string) {
    s != [] && s[0] == '"' && s[|s| - 1] == '"'
  }

  lemma {:induction false} ReadUnquoted(before: string, s: string, after: string)
    requires AllSpaces(before) && AllSpaces(after) && Tight(s) && !IsQuoted(s)
    ensures DecodeAndroidResourceValue(before + s + after) == DecodeXml(s)
  {
    hide DecodeXml, Trim;
    TrimSpaced(before, s, after);
  }

  /** White space around a resource changes nothing, quoted or not. */
  lemma {:induction false} SpacedRoundTrip(before: string, v: string, after: string)
    requires AllSpaces(before) && AllSpaces(after)
    ensures DecodeAndroidResourceValue(before + Quote(EscapeAndroidResourceValue(v)) + after) == NTurned(v)
    ensures SurvivesTrim(v) ==> DecodeAndroidResourceValue(before + EscapeAndroidResourceValue(v) + after) == NTurned(v)
  {
    var e := EscapeAndroidResourceValue(v);
    DecodeXmlOfEscape(v);
    LastBlocks(v);
    EscapeIsBlocks(v);
    hide EscapeAndroidResourceValue, DecodeAndroidResourceValue, DecodeXml, NTurned, Blocks;
    ReadQuoted(before, e, after);
    if SurvivesTrim(v) {
      if v != [] {
        BlocksEnds(v);
      } else {
        assert e == [] by { EscapeStripped([]); }
      }
      ReadUnquoted(before, e, after);
    }
  }

  lemma {:induction false} StripFront(v: string) returns (before: string, core: string)
    ensures v == before + core && AllStripped(before)
    ensures core != [] ==> !IsStripped(core[0])
  {
    hide IsStripped;
    if v == [] || !IsStripped(v[0]) {
      before, core := [], v;
    } else {
      before, core := StripFront(v[1..]);
      before := [v[0]] + before;
    }
  }

  lemma {:induction false} StripBack(v: string) returns (core: string, after: string)
    ensures v == core + after && AllStripped(after)
    ensures core != [] ==> !IsStripped(core[|core| - 1])
  {
    hide IsStripped;
    if v == [] || !IsStripped(v[|v| - 1]) {
      core, after := v, [];
    } else {
      core, after := StripBack(v[..|v| - 1]);
      after := after + [v[|v| - 1]];
    }
  }

  /** Every value is white space, a part that survives, and white space. */
  lemma {:induction false} StripEnds(v: string) returns (before: string, core: string, after: string)
    ensures v == before + core + after
    ensures AllStripped(before) && AllStripped(after) && SurvivesTrim(core)
    ensures SurvivesTrim(v) ==> core == v
  {
    hide IsStripped;
    var tail;
    before, tail := StripFront(v);
    core, after := StripBack(tail);
    if before != [] {
      assert IsStripped(before[0]) && v[0] == before[0];
    }
    if after != [] {
      assert IsStripped(after[|after| - 1]) && v[|v| - 1] == after[|after| - 1];
    }
    if core != [] {
      assert tail[0] == core[0];
    }
  }

  /** Without quotes a value survives exactly when, besides, it does not start or end in white space
      other than a line break. */
  lemma {:induction false} UnquotedRoundTripExact(v: string)
    ensures DecodeAndroidResourceValue(EscapeAndroidResourceValue(v)) == v
            <==> SurvivesTrim(v) && forall i :: 0 <= i < |v| ==> !BackslashBeforeN(v, i)
  {
    var before, core, after := StripEnds(v);
    UnquotedRoundTrip(before, core, after);
    hide EscapeAndroidResourceValue, DecodeAndroidResourceValue;
    assert |NTurned(core)| == |core|;
    if SurvivesTrim(v) {
      if i :| 0 <= i < |v| && BackslashBeforeN(v, i) {
        assert NTurned(v)[i] != v[i];
      }
    }
  }

  /** Text without escapes: an unquoted resource is read as its trimmed self, a quoted one as what
      stands between the quotes. */
  lemma {:induction false} PlainTextIsRead(before: string, s: string, after: string)
    requires AllSpaces(before) && AllSpaces(after) && '&' !in s && '\\' !in s
    ensures DecodeAndroidResourceValue(before + Quote(s) + after) == s
    ensures Tight(s) && !IsQuoted(s) ==> DecodeAndroidResourceValue(before + s + after) == s
  {
    hide DecodeXml, DecodeAndroidResourceValue;
    PlainXml(s);
    ReadQuoted(before, s, after);
    if Tight(s) && !IsQuoted(s) {
      ReadUnquoted(before, s, after);
    }
  }

  /** A single quote opens and closes nothing. */
  lemma {:induction false} LoneQuoteIsRead(before: string, after: string)
    requires AllSpaces(before) && AllSpaces(after)
    ensures DecodeAndroidResourceValue(before + "\"" + after) == ""
  {
    PlainXml("");
    hide DecodeXml, Trim;
    TrimSpaced(before, "\"", after);
  }

  lemma {:induction false} ReplaceNowhere(s: string, pat: string, rep: string)
    requires pat != [] && pat[0] !in s
    ensures ReplaceAll(s, pat, rep) == s
  {
    ReplaceSkipAbsent(s, [], pat, rep);
    assert s + [] == s;
  }

  lemma {:induction false} PlainXml(s: string)
    requires '&' !in s && '\\' !in s
    ensures DecodeXml(s) == s
  {
    hide ReplaceAll;
    ReplaceNowhere(s, "&lt;", "<");
    ReplaceNowhere(s, "&gt;", ">");
    ReplaceNowhere(s, "&quot;", "\"");
    ReplaceNowhere(s, "&amp;", "&");
    NoBackslashes(s);
  }

  lemma {:induction false} NoBackslashes(s: string)
    requires '\\' !in s
    ensures ReplaceAll(ReplaceAll(ReplaceAll(ReplaceAll(s, "\\n", "\n"), "\\'", "'"), "\\\"", "\""), "\\\\", "\\") == s
  {
    hide ReplaceAll;
    ReplaceNowhere(s, "\\n", "\n");
    ReplaceNowhere(s, "\\'", "'");
    ReplaceNowhere(s, "\\\"", "\"");
    ReplaceNowhere(s, "\\\\", "\\");
  }

  // ---------------------------------------------------------------------------------------
  // The four entities

  /** The characters written as entities, in the order in which they are decoded. */
  const ENTITIES := [('<', "&lt;"), ('>', "&gt;"), ('"', "&quot;"), ('&', "&amp;")]

  /** A character in a text of which the first `stage` entities have been decoded. */
  function Encoded(c: char, stage: nat): string {
    if c == '<' && stage < 1 then "&lt;"
    else if c == '>' && stage < 2 then "&gt;"
    else if c == '"' && stage < 3 then "&quot;"
    else if c == '&' && stage < 4 then "&amp;"
    else [c]
  }

  function EncodeXml(v: string, stage: nat := 0): string {
    if v == [] then [] else Encoded(v[0], stage) + EncodeXml(v[1..], stage)
  }

  lemma {:induction false} EntityBlock(c: char, t: string, stage: nat)
    requires stage < 4
    ensures var (plain, entity) := ENTITIES[stage];
            ReplaceAll(Encoded(c, stage) + t, entity, [plain])
            == Encoded(c, stage + 1) + ReplaceAll(t, entity, [plain])
  {
    hide ReplaceAll;
    var (plain, entity) := ENTITIES[stage];
    var b := Encoded(c, stage);
    if c == plain {
      ReplaceMatch(entity, t, [plain]);
    } else if b[0] == '&' {
      assert (b + t)[1] == b[1] != entity[1];
      ReplaceSkipBlock(b, t, entity, [plain]);
    } else {
      ReplaceSkipAbsent(b, t, entity, [plain]);
    }
  }

  lemma {:induction false} EntityStep(v: string, stage: nat)
    requires stage < 4
    ensures ReplaceAll(EncodeXml(v, stage), ENTITIES[stage].1, [ENTITIES[stage].0]) == EncodeXml(v, stage + 1)
  {
    if v != [] {
      EntityStep(v[1..], stage);
      EntityBlock(v[0], EncodeXml(v[1..], stage), stage);
    }
  }

  lemma {:induction false} AllDecoded(v: string)
    ensures EncodeXml(v, 4) == v
  {
    if v != [] {
      AllDecoded(v[1..]);
    }
  }

  /** Text written with the four entities is read back as it was. */
  lemma {:induction false} EntitiesAreRead(v: string)
    requires '\\' !in v
    ensures DecodeXml(EncodeXml(v)) == v
  {
    hide ReplaceAll;
    EntityStep(v, 0);
    EntityStep(v, 1);
    EntityStep(v, 2);
    EntityStep(v, 3);
    AllDecoded(v);
    NoBackslashes(v);
  }
}
