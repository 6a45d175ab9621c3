/**
 Finding the brace that closes the first one, past quoted text.  The interpolation scanner
 (scripts/android-app-i18n.ts) and the envelope scanner (scripts/code-mode-model-matrix.ts) both do
 this; they differ in the characters that open a quotation.
*/
module BraceScanner {
  import opened Wrappers

  datatype Quotes = DoubleQuotes | BothQuotes

  /** How many braces are open, which quote is open, and whether the character before was a backslash
      inside that quote. */
  datatype Mode = Mode(quotes: Quotes, depth: nat, quote: Option<char>, escaped: bool)

  predicate Opens(quotes: Quotes, c: char) {
    c == '"' || (quotes.BothQuotes? && c == '\'')
  }

  function Step(m: Mode, c: char): Mode {
    if m.escaped then m.(escaped := false)
    else if m.quote.Some? && c == '\\' then m.(escaped := true)
    else if m.quote == Some(c) then m.(quote := None)
    else if m.quote.None? && Opens(m.quotes, c) then m.(quote := Some(c))
    else if m.quote.None? && c == '{' then m.(depth := m.depth + 1)
    else if m.quote.None? && c == '}' && m.depth > 0 then m.(depth := m.depth - 1)
    else m
  }

  /** The offset in `t` of the character after which no brace is open any more. */
  function Closing(t: string, m: Mode): (k: Option<nat>)
    ensures k.Some? ==> k.value < |t|
  {
    if t == [] then None
    else if Step(m, t[0]).depth == 0 then Some(0)
    else Shift(1, Closing(t[1..], Step(m, t[0])))
  }

  function Shift(n: nat, k: Option<nat>): Option<nat> {
    if k.Some? then Some(n + k.value) else None
  }

  lemma {:induction false} ClosingStep(t: string, index: nat, m: Mode)
    requires index < |t|
    ensures Closing(t[index..], m)
            == if Step(m, t[index]).depth == 0 then Some(0) else Shift(1, Closing(t[index + 1..], Step(m, t[index])))
  {
    hide Step;
    assert t[index..][1..] == t[index + 1..];
    assert t[index..][0] == t[index];
  }

  lemma {:induction false} NothingCloses(t: string, m: Mode)
    ensures Closing(t[|t|..], m) == None && t[0..] == t
  {
  }

  // ---------------------------------------------------------------------------------------
  // Reading on without closing the last brace

  /** Reading `u` leads from mode `m` to mode `n` and never to depth zero. */
  ghost predicate Skips(u: string, m: Mode, n: Mode) {
    if u == [] then m == n else Step(m, u[0]).depth > 0 && Skips(u[1..], Step(m, u[0]), n)
  }

  lemma {:induction false} SkipsNothing(m: Mode)
    ensures Skips([], m, m)
  {
  }

  lemma {:induction false} SkipsOne(c: char, m: Mode)
    requires Step(m, c).depth > 0
    ensures Skips([c], m, Step(m, c))
  {
    hide Step;
    assert [c][1..] == [];
  }

  lemma {:induction false} SkipsConcat(u: string, v: string, m: Mode, n: Mode, o: Mode)
    requires Skips(u, m, n) && Skips(v, n, o)
    ensures Skips(u + v, m, o)
  {
    hide Step;
    if u == [] {
      assert u + v == v;
    } else {
      assert (u + v)[1..] == u[1..] + v;
      SkipsConcat(u[1..], v, Step(m, u[0]), n, o);
    }
  }

  lemma {:induction false} ClosingAfterSkip(u: string, t: string, m: Mode, n: Mode)
    requires Skips(u, m, n)
    ensures Closing(u + t, m) == Shift(|u|, Closing(t, n))
  {
    hide Step;
    if u == [] {
      assert u + t == t;
    } else {
      assert (u + t)[1..] == u[1..] + t;
      ClosingAfterSkip(u[1..], t, Step(m, u[0]), n);
    }
  }

  lemma {:induction false} ClosingOfPrefix(t: string, n: nat, m: Mode)
    requires n <= |t| && Closing(t, m).Some? && n <= Closing(t, m).value
    ensures Closing(t[..n], m) == None
  {
    hide Step;
    if n > 0 {
      assert t[..n][1..] == t[1..][..n - 1];
      ClosingOfPrefix(t[1..], n - 1, Step(m, t[0]));
    }
  }
}
