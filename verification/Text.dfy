/** The JavaScript string operations the modelled code uses, on sequences of characters. */
module Text {

  /** `s.replaceAll(pat, rep)`: left to right, matches do not overlap. */
  function ReplaceAll(s: string, pat: string, rep: string): string
    requires pat != []
  {
    if s == [] then []
    else if pat <= s then rep + ReplaceAll(s[|pat|..], pat, rep)
    else [s[0]] + ReplaceAll(s[1..], pat, rep)
  }

  lemma {:induction false} ReplaceMatch(pat: string, t: string, rep: string)
    requires pat != []
    ensures ReplaceAll(pat + t, pat, rep) == rep + ReplaceAll(t, pat, rep)
  {
    assert pat <= pat + t;
    assert (pat + t)[|pat|..] == t;
  }

  lemma {:induction false} ReplaceSkip(c: char, t: string, pat: string, rep: string)
    requires pat != [] && !(pat <= [c] + t)
    ensures ReplaceAll([c] + t, pat, rep) == [c] + ReplaceAll(t, pat, rep)
  {
    assert ([c] + t)[1..] == t;
  }

  /** A block that has no character a match could start with is copied. */
  lemma {:induction false} ReplaceSkipAbsent(b: string, t: string, pat: string, rep: string)
    requires pat != [] && pat[0] !in b
    ensures ReplaceAll(b + t, pat, rep) == b + ReplaceAll(t, pat, rep)
  {
    if b == [] {
      assert b + t == t;
    } else {
      var u := b[1..] + t;
      assert b + t == [b[0]] + u;
      ReplaceSkip(b[0], u, pat, rep);
      ReplaceSkipAbsent(b[1..], t, pat, rep);
      assert [b[0]] + (b[1..] + ReplaceAll(t, pat, rep)) == b + ReplaceAll(t, pat, rep);
    }
  }

  /** So is a block in which a match could only start at the front, and does not. */
  lemma {:induction false} ReplaceSkipBlock(b: string, t: string, pat: string, rep: string)
    requires pat != [] && b != [] && pat[0] !in b[1..] && !(pat <= b + t)
    ensures ReplaceAll(b + t, pat, rep) == b + ReplaceAll(t, pat, rep)
  {
    var u := b[1..] + t;
    assert b + t == [b[0]] + u;
    ReplaceSkip(b[0], u, pat, rep);
    ReplaceSkipAbsent(b[1..], t, pat, rep);
    assert [b[0]] + (b[1..] + ReplaceAll(t, pat, rep)) == b + ReplaceAll(t, pat, rep);
  }

  /** Replacing one character works on each part of a text separately. */
  lemma {:induction false} ReplaceCharConcat(a: string, b: string, c: char, rep: string)
    ensures ReplaceAll(a + b, [c], rep) == ReplaceAll(a, [c], rep) + ReplaceAll(b, [c], rep)
  {
    if a == [] {
      assert a + b == b;
    } else {
      var u := a[1..] + b;
      assert a + b == [a[0]] + u;
      assert a == [a[0]] + a[1..];
      ReplaceCharConcat(a[1..], b, c, rep);
      if a[0] == c {
        ReplaceMatch([c], u, rep);
        ReplaceMatch([c], a[1..], rep);
      } else {
        ReplaceSkip(a[0], u, [c], rep);
        ReplaceSkip(a[0], a[1..], [c], rep);
      }
    }
  }

  /** `lines.join("\n")`. */
  function Join(lines: seq<string>): string {
    if lines == [] then []
    else if |lines| == 1 then lines[0]
    else lines[0] + ("\n" + Join(lines[1..]))
  }

  /** White space as `String.prototype.trim` understands it. */
  predicate IsSpace(c: char) {
    '\t' <= c <= '\r' || c == ' ' || c == '\U{A0}' || c == '\U{1680}' || '\U{2000}' <= c <= '\U{200A}'
    || c == '\U{2028}' || c == '\U{2029}' || c == '\U{202F}' || c == '\U{205F}' || c == '\U{3000}'
    || c == '\U{FEFF}'
  }

  function TrimStart(s: string): (r: string)
    ensures |r| <= |s| && r == s[|s| - |r|..]
    ensures r != [] ==> !IsSpace(r[0])
    ensures forall i :: 0 <= i < |s| - |r| ==> IsSpace(s[i])
  {
    if s != [] && IsSpace(s[0]) then TrimStart(s[1..]) else s
  }

  function TrimEnd(s: string): (r: string)
    ensures r <= s
    ensures r != [] ==> !IsSpace(r[|r| - 1])
    ensures forall i :: |r| <= i < |s| ==> IsSpace(s[i])
  {
    if s != [] && IsSpace(s[|s| - 1]) then TrimEnd(s[..|s| - 1]) else s
  }

  function Trim(s: string): string {
    TrimEnd(TrimStart(s))
  }

  predicate AllSpaces(s: string) {
    forall i :: 0 <= i < |s| ==> IsSpace(s[i])
  }

  /** Text that trimming leaves alone. */
  predicate Tight(s: string) {
    s == [] || (!IsSpace(s[0]) && !IsSpace(s[|s| - 1]))
  }

  lemma {:induction false} TrimStartSpaced(before: string, s: string)
    requires AllSpaces(before) && (s == [] || !IsSpace(s[0]))
    ensures TrimStart(before + s) == s
  {
    hide IsSpace;
    if before == [] {
      assert before + s == s;
    } else {
      assert (before + s)[0] == before[0] && (before + s)[1..] == before[1..] + s;
      TrimStartSpaced(before[1..], s);
    }
  }

  lemma {:induction false} TrimEndSpaced(s: string, after: string)
    requires AllSpaces(after) && (s == [] || !IsSpace(s[|s| - 1]))
    ensures TrimEnd(s + after) == s
  {
    hide IsSpace;
    if after == [] {
      assert s + after == s;
    } else {
      var shorter := after[..|after| - 1];
      assert (s + after)[|s + after| - 1] == after[|after| - 1] && (s + after)[..|s + after| - 1] == s + shorter;
      TrimEndSpaced(s, shorter);
    }
  }

  lemma {:induction false} TrimSpaced(before: string, s: string, after: string)
    requires AllSpaces(before) && AllSpaces(after) && Tight(s)
    ensures Trim(before + s + after) == s
  {
    hide IsSpace, TrimStart, TrimEnd;
    if s == [] {
      assert before + s + after == (before + after) + [];
      TrimStartSpaced(before + after, []);
      TrimEndSpaced([], []);
    } else {
      assert before + s + after == before + (s + after);
      TrimStartSpaced(before, s + after);
      TrimEndSpaced(s, after);
    }
  }

  /** The order of `<` on strings. */
  predicate Less(a: string, b: string) {
    b != [] && (a == [] || a[0] < b[0] || (a[0] == b[0] && Less(a[1..], b[1..])))
  }

  lemma {:induction false} LessTotal(a: string, b: string)
    ensures Less(a, b) || Less(b, a) || a == b
    ensures !(Less(a, b) && Less(b, a)) && !Less(a, a)
  {
    if a != [] && b != [] && a[0] == b[0] {
      LessTotal(a[1..], b[1..]);
      assert a == [a[0]] + a[1..] && b == [b[0]] + b[1..];
    }
    if a != [] {
      LessTotal(a[1..], a[1..]);
    }
  }

  lemma {:induction false} LessTransitive(a: string, b: string, c: string)
    requires Less(a, b) && Less(b, c)
    ensures Less(a, c)
  {
    if a != [] && a[0] == b[0] && b[0] == c[0] {
      LessTransitive(a[1..], b[1..], c[1..]);
    }
  }
}
