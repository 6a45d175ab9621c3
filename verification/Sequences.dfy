/** Filtering, flattening and stable sorting of sequences. */
module Sequences {

  function Filter<T(!new)>(s: seq<T>, keep: T -> bool): (r: seq<T>)
    ensures forall x :: x in r <==> x in s && keep(x)
  {
    if s == [] then []
    else
      var rest := Filter(s[..|s| - 1], keep);
      var last := s[|s| - 1];
      assert s == s[..|s| - 1] + [last];
      if keep(last) then rest + [last] else rest
  }

  lemma {:induction false} FilterCounts<T(!new)>(s: seq<T>, keep: T -> bool, x: T)
    ensures multiset(Filter(s, keep))[x] == if keep(x) then multiset(s)[x] else 0
  {
    if s != [] {
      FilterCounts(s[..|s| - 1], keep, x);
      assert s == s[..|s| - 1] + [s[|s| - 1]];
    }
  }

  function Occurrences<T(==)>(s: seq<T>, x: T): nat {
    multiset(s)[x]
  }

  /** Counting with the last element apart. */
  lemma {:induction false} OccurrencesLast<T>(s: seq<T>, x: T)
    requires s != []
    ensures Occurrences(s, x) == Occurrences(s[..|s| - 1], x) + if s[|s| - 1] == x then 1 else 0
    ensures x in s <==> x in s[..|s| - 1] || s[|s| - 1] == x
  {
    assert s == s[..|s| - 1] + [s[|s| - 1]];
  }

  lemma {:induction false} InOccurrences<T>(s: seq<T>, x: T)
    ensures x in s <==> Occurrences(s, x) > 0
  {
  }

  lemma {:induction false} OccurrencesConcat<T>(s: seq<T>, t: seq<T>, x: T)
    ensures Occurrences(s + t, x) == Occurrences(s, x) + Occurrences(t, x)
  {
  }

  function Flatten<T>(ss: seq<seq<T>>): seq<T> {
    if ss == [] then [] else Flatten(ss[..|ss| - 1]) + ss[|ss| - 1]
  }

  lemma {:induction false} FlattenConcat<T>(a: seq<seq<T>>, b: seq<seq<T>>)
    ensures Flatten(a + b) == Flatten(a) + Flatten(b)
  {
    if b == [] {
      assert a + b == a;
    } else {
      var fewer, last := b[..|b| - 1], b[|b| - 1];
      FlattenConcat(a, fewer);
      FlattenLast(b);
      FlattenLast(a + b);
      hide Flatten;
      assert (a + b)[..|a + b| - 1] == a + fewer;
      assert (Flatten(a) + Flatten(fewer)) + last == Flatten(a) + (Flatten(fewer) + last);
    }
  }

  lemma {:induction false} FlattenLast<T>(ss: seq<seq<T>>)
    requires ss != []
    ensures Flatten(ss) == Flatten(ss[..|ss| - 1]) + ss[|ss| - 1]
  {
  }

  lemma {:induction false} InFlatten<T>(ss: seq<seq<T>>, i: nat, x: T)
    requires i < |ss| && x in ss[i]
    ensures x in Flatten(ss)
  {
    if i < |ss| - 1 {
      InFlatten(ss[..|ss| - 1], i, x);
    }
  }

  /** Changing one part of a flattened sequence changes the flattened contents by as much. */
  lemma {:induction false} FlattenUpdate<T>(ss: seq<seq<T>>, i: nat, t: seq<T>)
    requires i < |ss|
    ensures multiset(Flatten(ss[i := ss[i] + t])) == multiset(Flatten(ss)) + multiset(t)
  {
    var n := |ss| - 1;
    var updated := ss[i := ss[i] + t];
    FlattenLast(ss);
    FlattenLast(updated);
    hide Flatten;
    if i == n {
      assert updated[..n] == ss[..n];
    } else {
      assert updated[..n] == ss[..n][i := ss[..n][i] + t];
      FlattenUpdate(ss[..n], i, t);
    }
  }

  /** A value in two parts is there at least twice. */
  lemma {:induction false} InTwoParts<T>(ss: seq<seq<T>>, i: nat, j: nat, x: T)
    requires i < j < |ss| && x in ss[i] && x in ss[j]
    ensures multiset(Flatten(ss))[x] >= 2
  {
    var n := |ss| - 1;
    if j == n {
      InFlatten(ss[..n], i, x);
    } else {
      InTwoParts(ss[..n], i, j, x);
    }
  }

  // ---------------------------------------------------------------------------------------
  // Sorting

  /** Puts `x` in front of the elements that do not come before it. */
  function Insert<T>(x: T, s: seq<T>, before: (T, T) -> bool): (r: seq<T>)
    ensures multiset(r) == multiset(s) + multiset{x}
  {
    if s == [] then [x]
    else if before(s[0], x) then
      assert s == [s[0]] + s[1..];
      [s[0]] + Insert(x, s[1..], before)
    else [x] + s
  }

  /** The stable sort by `before`. */
  function Sort<T>(s: seq<T>, before: (T, T) -> bool): (r: seq<T>)
    ensures multiset(r) == multiset(s)
  {
    if s == [] then [] else
      assert s == [s[0]] + s[1..];
      Insert(s[0], Sort(s[1..], before), before)
  }

  ghost predicate StrictOrder<T(!new)>(before: (T, T) -> bool) {
    && (forall x :: !before(x, x))
    && (forall x, y, z :: before(x, y) && before(y, z) ==> before(x, z))
    && (forall x, y :: x != y ==> before(x, y) || before(y, x))
  }

  /** A strict order in which elements may tie. */
  ghost predicate WeakOrder<T(!new)>(before: (T, T) -> bool) {
    && (forall x :: !before(x, x))
    && (forall x, y, z :: before(x, y) && before(y, z) ==> before(x, z))
    && (forall x, y, z :: before(x, y) ==> before(x, z) || before(z, y))
  }

  lemma {:induction false} StrictIsWeak<T(!new)>(before: (T, T) -> bool)
    requires StrictOrder(before)
    ensures WeakOrder(before)
  {
    forall x, y, z | before(x, y)
      ensures before(x, z) || before(z, y)
    {
      if z != x && z != y && !before(x, z) {
        assert before(z, x);
      }
    }
  }

  ghost predicate Sorted<T>(s: seq<T>, before: (T, T) -> bool) {
    forall i, j :: 0 <= i < j < |s| ==> !before(s[j], s[i])
  }

  lemma {:induction false} InsertSorts<T(!new)>(x: T, s: seq<T>, before: (T, T) -> bool)
    requires WeakOrder(before) && Sorted(s, before)
    ensures Sorted(Insert(x, s, before), before)
  {
    if s != [] && before(s[0], x) {
      InsertSorts(x, s[1..], before);
      FirstStaysFirst(x, s, before);
    }
  }

  lemma {:induction false} FirstStaysFirst<T(!new)>(x: T, s: seq<T>, before: (T, T) -> bool)
    requires WeakOrder(before) && Sorted(s, before) && s != [] && before(s[0], x)
    ensures forall j :: 0 <= j < |Insert(x, s[1..], before)| ==> !before(Insert(x, s[1..], before)[j], s[0])
  {
    hide Insert;
    var rest := Insert(x, s[1..], before);
    forall j | 0 <= j < |rest|
      ensures !before(rest[j], s[0])
    {
      assert rest[j] in multiset(rest);
      if rest[j] != x {
        assert rest[j] in multiset(s[1..]);
        var i :| 0 <= i < |s[1..]| && s[1..][i] == rest[j];
        assert s[i + 1] == rest[j];
      }
    }
  }

  lemma {:induction false} SortSortsTies<T(!new)>(s: seq<T>, before: (T, T) -> bool)
    requires WeakOrder(before)
    ensures Sorted(Sort(s, before), before)
  {
    if s != [] {
      SortSortsTies(s[1..], before);
      InsertSorts(s[0], Sort(s[1..], before), before);
    }
  }

  lemma {:induction false} SortSorts<T(!new)>(s: seq<T>, before: (T, T) -> bool)
    requires StrictOrder(before)
    ensures Sorted(Sort(s, before), before)
  {
    StrictIsWeak(before);
    SortSortsTies(s, before);
  }

  lemma {:induction false} RestOf<T>(s: seq<T>)
    requires s != []
    ensures s == [s[0]] + s[1..] && multiset(s[1..]) == multiset(s) - multiset{s[0]}
  {
    assert s == [s[0]] + s[1..];
  }

  /** Two sorted sequences with the same elements are the same sequence. */
  lemma {:induction false} SortedIsUnique<T(!new)>(a: seq<T>, b: seq<T>, before: (T, T) -> bool)
    requires StrictOrder(before) && Sorted(a, before) && Sorted(b, before) && multiset(a) == multiset(b)
    ensures a == b
  {
    if a == [] {
      assert |multiset(b)| == |b| == 0;
    } else {
      FirstIsUnique(a, b, before);
      RestOf(a);
      RestOf(b);
      SortedIsUnique(a[1..], b[1..], before);
    }
  }

  lemma {:induction false} FirstIsUnique<T(!new)>(a: seq<T>, b: seq<T>, before: (T, T) -> bool)
    requires a != [] && StrictOrder(before) && Sorted(a, before) && Sorted(b, before) && multiset(a) == multiset(b)
    ensures b != [] && a[0] == b[0]
  {
    assert a[0] in multiset(b) && |b| == |multiset(b)| == |a|;
    assert b[0] in multiset(a);
    var i :| 0 <= i < |b| && b[i] == a[0];
    var j :| 0 <= j < |a| && a[j] == b[0];
  }

  /** Sorting by a strict order forgets the order of its input. */
  lemma {:induction false} SortIgnoresOrder<T(!new)>(a: seq<T>, b: seq<T>, before: (T, T) -> bool)
    requires StrictOrder(before) && multiset(a) == multiset(b)
    ensures Sort(a, before) == Sort(b, before)
  {
    SortSorts(a, before);
    SortSorts(b, before);
    SortedIsUnique(Sort(a, before), Sort(b, before), before);
  }

  // ---------------------------------------------------------------------------------------
  // Order that does not matter

  function FlatMap<A, B>(s: seq<A>, f: A -> seq<B>): seq<B> {
    if s == [] then [] else f(s[0]) + FlatMap(s[1..], f)
  }

  lemma {:induction false} FlatMapConcat<A, B>(a: seq<A>, b: seq<A>, f: A -> seq<B>)
    ensures FlatMap(a + b, f) == FlatMap(a, f) + FlatMap(b, f)
  {
    if a == [] {
      assert a + b == b;
    } else {
      assert (a + b)[1..] == a[1..] + b;
      FlatMapConcat(a[1..], b, f);
    }
  }

  lemma {:induction false} TakeOut<A>(t: seq<A>, x: A) returns (i: nat)
    requires x in t
    ensures i < |t| && t[i] == x && t == t[..i] + ([x] + t[i + 1..])
    ensures multiset(t[..i] + t[i + 1..]) == multiset(t) - multiset{x}
  {
    i :| 0 <= i < |t| && t[i] == x;
    assert t == t[..i] + ([x] + t[i + 1..]);
  }

  /** Mapping a reordered sequence gives a reordered result. */
  lemma {:induction false} FlatMapIgnoresOrder<A, B>(s: seq<A>, t: seq<A>, f: A -> seq<B>)
    requires multiset(s) == multiset(t)
    ensures multiset(FlatMap(s, f)) == multiset(FlatMap(t, f))
    decreases |s|
  {
    if s == [] {
      assert |multiset(t)| == |t| == 0;
    } else {
      var x := s[0];
      assert s == [x] + s[1..];
      assert x in multiset(t);
      var i := TakeOut(t, x);
      FlatMapIgnoresOrder(s[1..], t[..i] + t[i + 1..], f);
      FlatMapConcat(t[..i], t[i + 1..], f);
      FlatMapConcat(t[..i], [x] + t[i + 1..], f);
      assert ([x] + t[i + 1..])[1..] == t[i + 1..];
    }
  }

  lemma {:induction false} SameElements<A>(s: seq<A>, t: seq<A>, x: A)
    requires multiset(s) == multiset(t)
    ensures x in s <==> x in t
  {
    assert x in s <==> x in multiset(s);
    assert x in t <==> x in multiset(t);
  }

  /** The values in the order they are first seen. */
  function Distinct<T(==)>(s: seq<T>): (r: seq<T>) {
    if s == [] then [] else
      var n := |s| - 1;
      var r := Distinct(s[..n]);
      if s[n] in r then r else r + [s[n]]
  }

  lemma {:induction false} DistinctCounts<T>(s: seq<T>, x: T)
    ensures multiset(Distinct(s))[x] == if x in s then 1 else 0
    ensures x in Distinct(s) <==> x in s
  {
    if s != [] {
      var n := |s| - 1;
      assert s == s[..n] + [s[n]];
      DistinctCounts(s[..n], x);
      DistinctCounts(s[..n], s[n]);
    }
  }

  lemma {:induction false} PartOfPart<T>(s: seq<T>, from: nat, to: nat, a: nat, b: nat)
    requires from <= to <= |s| && a <= b <= to - from
    ensures s[from..to][a..b] == s[from + a..from + b]
  {
    var part := s[from..to];
    forall k | 0 <= k < b - a
      ensures part[a..b][k] == s[from + a..from + b][k]
    {
      assert part[a..b][k] == part[a + k] == s[from + (a + k)];
    }
  }

  lemma {:induction false} TwoPlaces<T>(s: seq<T>, i: nat, j: nat)
    requires i < j < |s| && s[i] == s[j]
    ensures Occurrences(s, s[i]) >= 2
  {
    assert s == s[..j] + s[j..];
    assert s[i] in s[..j] && s[j] == s[j..][0];
  }

  lemma {:induction false} DistinctIgnoresOrder<T(!new)>(s: seq<T>, t: seq<T>)
    requires multiset(s) == multiset(t)
    ensures multiset(Distinct(s)) == multiset(Distinct(t))
  {
    var a, b := multiset(Distinct(s)), multiset(Distinct(t));
    forall x | x in a || x in b ensures a[x] == b[x] {
      DistinctCounts(s, x);
      DistinctCounts(t, x);
      SameElements(s, t, x);
    }
    assert a <= b && b <= a;
  }

  lemma {:induction false} DistinctStep<T>(s: seq<T>, n: nat)
    requires n < |s|
    ensures Distinct(s[..n + 1]) == if s[n] in Distinct(s[..n]) then Distinct(s[..n]) else Distinct(s[..n]) + [s[n]]
    ensures multiset(s[..n + 1]) == multiset(s[..n]) + multiset{s[n]}
  {
    assert s[..n + 1] == s[..n] + [s[n]] && s[..n + 1][..n] == s[..n];
  }
}
