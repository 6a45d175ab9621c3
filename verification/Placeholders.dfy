/** The `{name}` placeholders of a translation (scripts/control-ui-i18n.ts, control-ui-i18n-verify.ts). */
module Placeholders {

  predicate IsWord(c: char) {
    'a' <= c <= 'z' || 'A' <= c <= 'Z' || '0' <= c <= '9' || c == '_'
  }

  function WordLength(t: string): (n: nat)
    ensures n <= |t| && forall i :: 0 <= i < n ==> IsWord(t[i])
    ensures n < |t| ==> !IsWord(t[n])
  {
    if t == [] || !IsWord(t[0]) then 0 else 1 + WordLength(t[1..])
  }

  /** A placeholder stands at `i`. */
  predicate StandsAt(t: string, i: nat, name: string) {
    && i + |name| + 2 <= |t| && name != []
    && t[i] == '{' && t[i + 1..i + 1 + |name|] == name && t[i + 1 + |name|] == '}'
    && forall c :: c in name ==> IsWord(c)
  }

  /** All matches from left to right. */
  function Matches(t: string, from: nat): seq<string>
    requires from <= |t|
    decreases |t| - from
  {
    if from == |t| then []
    else if t[from] != '{' then Matches(t, from + 1)
    else
      var n := WordLength(t[from + 1..]);
      if n > 0 && from + 1 + n < |t| && t[from + 1 + n] == '}'
      then [t[from + 1..from + 1 + n]] + Matches(t, from + 2 + n)
      else Matches(t, from + 1)
  }

  /** The names without repetition; comparing the sorted lists of names compares these sets. */
  function Extract(t: string): set<string> {
    set name | name in Matches(t, 0)
  }

  /** A placeholder stands at `from` or later. */
  ghost predicate StandsFrom(t: string, from: nat, name: string) {
    exists i :: from <= i && StandsAt(t, i, name)
  }

  lemma {:induction false} StandsHereOrLater(t: string, from: nat, later: nat, name: string)
    requires from < later && forall i :: from < i < later ==> !StandsAt(t, i, name)
    ensures StandsFrom(t, from, name) <==> StandsAt(t, from, name) || StandsFrom(t, later, name)
  {
    hide StandsAt;
    if i :| from <= i && StandsAt(t, i, name) {
      assert i == from || i >= later;
    }
  }

  lemma {:induction false} NothingStandsAtEnd(t: string, name: string)
    ensures !StandsFrom(t, |t|, name)
  {
  }

  /** Exactly the names that stand somewhere in the text are matched. */
  lemma {:induction false} MatchesAreWhatStands(t: string, from: nat, name: string)
    requires from <= |t|
    ensures name in Matches(t, from) <==> StandsFrom(t, from, name)
    decreases |t| - from
  {
    hide StandsAt, WordLength, StandsFrom;
    if from == |t| {
      NothingStandsAtEnd(t, name);
    } else {
      var n := WordLength(t[from + 1..]);
      NameHere(t, from, name);
      if t[from] == '{' && n > 0 && from + 1 + n < |t| && t[from + 1 + n] == '}' {
        MatchesAreWhatStands(t, from + 2 + n, name);
        NothingInside(t, from, name);
        StandsHereOrLater(t, from, from + 2 + n, name);
      } else {
        MatchesAreWhatStands(t, from + 1, name);
        StandsHereOrLater(t, from, from + 1, name);
      }
    }
  }

  lemma {:induction false} NothingInside(t: string, from: nat, name: string)
    requires from < |t|
    ensures var n := WordLength(t[from + 1..]);
            from + 1 + n < |t| && t[from + 1 + n] == '}' ==>
              forall i :: from < i < from + 2 + n ==> !StandsAt(t, i, name)
  {
    var rest := t[from + 1..];
    var n := WordLength(rest);
    forall i | from < i < from + 1 + n ensures t[i] == rest[i - from - 1] {
    }
  }

  lemma {:induction false} NameHere(t: string, from: nat, name: string)
    requires from < |t|
    ensures var n := WordLength(t[from + 1..]);
            StandsAt(t, from, name) <==>
              && t[from] == '{' && n > 0 && from + 1 + n < |t| && t[from + 1 + n] == '}'
              && name == t[from + 1..from + 1 + n]
  {
    var rest := t[from + 1..];
    var n := WordLength(rest);
    assert forall k :: 0 <= k < |rest| ==> rest[k] == t[from + 1 + k];
    if StandsAt(t, from, name) {
      var m := |name|;
      assert t[from + 1 + m] == '}' && rest[m] == '}';
      assert forall k :: 0 <= k < m ==> rest[k] == name[k] && name[k] in name;
      assert n == m;
    }
  }

  lemma {:induction false} ExtractIsWhatStands(t: string)
    ensures forall name :: name in Extract(t) <==> StandsFrom(t, 0, name)
  {
    hide StandsFrom;
    forall name: string {
      MatchesAreWhatStands(t, 0, name);
    }
  }
}
