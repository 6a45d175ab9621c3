/** The `*` and `**` matcher for dotted config paths (scripts/check-policy-config-coverage.ts). */
module PathGlob {
  import opened Sequences

  type Parts = seq<string>

  predicate MatchesParts(pattern: Parts, value: Parts) {
    if pattern == [] then value == []
    else
      var head, tail := pattern[0], pattern[1..];
      if head == "**" then
        tail == [] || exists index :: 0 <= index <= |value| && MatchesParts(tail, value[index..])
      else
        value != [] && (head == "*" || head == value[0]) && MatchesParts(tail, value[1..])
  }

  /** The matcher as the program runs it; the loop tries every stretch for a leading `**`. */
  method MatchParts(patternParts: Parts, valueParts: Parts) returns (r: bool)
    ensures r == MatchesParts(patternParts, valueParts)
    decreases |patternParts|
  {
    if |patternParts| == 0 {
      return |valueParts| == 0;
    }
    var head, tail := patternParts[0], patternParts[1..];
    if head == "**" {
      if |tail| == 0 {
        return true;
      }
      for index := 0 to |valueParts| + 1
        invariant forall k :: 0 <= k < index ==> !MatchesParts(tail, valueParts[k..])
      {
        var found := MatchParts(tail, valueParts[index..]);
        if found {
          return true;
        }
      }
      return false;
    }
    if |valueParts| == 0 {
      return false;
    }
    if head != "*" && head != valueParts[0] {
      return false;
    }
    r := MatchParts(tail, valueParts[1..]);
  }

  // ---------------------------------------------------------------------------------------
  // What a pattern means

  /** The stretch of a path that one pattern part can stand for. */
  predicate StandsFor(part: string, block: Parts) {
    part == "**" || (|block| == 1 && (part == "*" || part == block[0]))
  }

  /** The path can be cut into stretches, one for each part of the pattern. */
  ghost predicate Denotes(pattern: Parts, value: Parts) {
    exists blocks :: CutInto(pattern, value, blocks)
  }

  predicate CutInto(pattern: Parts, value: Parts, blocks: seq<Parts>) {
    && |blocks| == |pattern| && Flatten(blocks) == value
    && forall i :: 0 <= i < |pattern| ==> StandsFor(pattern[i], blocks[i])
  }

  lemma {:induction false} FlattenFirst(block: Parts, blocks: seq<Parts>)
    ensures Flatten([block] + blocks) == block + Flatten(blocks)
  {
    FlattenConcat([block], blocks);
    assert [block][..0] == [];
    assert Flatten([block]) == [] + block;
  }

  /** Matching the tail behind some first stretch. */
  lemma {:induction false} MatchesByFirst(pattern: Parts, value: Parts)
    requires pattern != []
    ensures MatchesParts(pattern, value)
            <==> exists k :: 0 <= k <= |value| && StandsFor(pattern[0], value[..k])
                                 && MatchesParts(pattern[1..], value[k..])
  {
    if pattern[0] == "**" {
      if pattern[1..] == [] {
        assert value[|value|..] == [];
        assert StandsFor(pattern[0], value[..|value|]) && MatchesParts(pattern[1..], value[|value|..]);
      }
      if MatchesParts(pattern, value) && pattern[1..] != [] {
        var k :| 0 <= k <= |value| && MatchesParts(pattern[1..], value[k..]);
        assert StandsFor(pattern[0], value[..k]);
      }
    } else if MatchesParts(pattern, value) {
      assert StandsFor(pattern[0], value[..1]);
    }
  }

  lemma {:induction false} MatchesIsDenotes(pattern: Parts, value: Parts)
    ensures MatchesParts(pattern, value) <==> Denotes(pattern, value)
    decreases pattern
  {
    if pattern == [] {
      assert Flatten<string>([]) == [];
      assert MatchesParts(pattern, value) ==> CutInto(pattern, value, []);
    } else {
      MatchesByFirst(pattern, value);
      if MatchesParts(pattern, value) {
        var k :| 0 <= k <= |value| && StandsFor(pattern[0], value[..k]) && MatchesParts(pattern[1..], value[k..]);
        MatchesIsDenotes(pattern[1..], value[k..]);
        var blocks :| CutInto(pattern[1..], value[k..], blocks);
        DenotesWithFirst(pattern, value, k, blocks);
      }
      if Denotes(pattern, value) {
        var blocks :| CutInto(pattern, value, blocks);
        var k := |blocks[0]|;
        assert blocks == [blocks[0]] + blocks[1..];
        FlattenFirst(blocks[0], blocks[1..]);
        assert value[..k] == blocks[0] && value[k..] == Flatten(blocks[1..]);
        assert CutInto(pattern[1..], value[k..], blocks[1..]);
        MatchesIsDenotes(pattern[1..], value[k..]);
      }
    }
  }

  lemma {:induction false} DenotesWithFirst(pattern: Parts, value: Parts, k: nat, blocks: seq<Parts>)
    requires pattern != [] && k <= |value| && StandsFor(pattern[0], value[..k])
             && CutInto(pattern[1..], value[k..], blocks)
    ensures Denotes(pattern, value)
  {
    FlattenFirst(value[..k], blocks);
    assert value[..k] + value[k..] == value;
    assert CutInto(pattern, value, [value[..k]] + blocks);
  }

  // ---------------------------------------------------------------------------------------
  // Laws

  ghost predicate Splits(p: Parts, q: Parts, value: Parts, k: nat)
    requires k <= |value|
  {
    MatchesParts(p, value[..k]) && MatchesParts(q, value[k..])
  }

  ghost predicate SplitsSomewhere(p: Parts, q: Parts, value: Parts) {
    exists k :: 0 <= k <= |value| && Splits(p, q, value, k)
  }

  lemma {:induction false} SplitsHere(p: Parts, q: Parts, value: Parts, k: nat)
    requires k <= |value| && Splits(p, q, value, k)
    ensures SplitsSomewhere(p, q, value)
  {
  }

  /** A concatenated pattern matches a path exactly when the path splits into a part matched by the
      first and a part matched by the second pattern. */
  lemma {:induction false} ConcatMatches(p: Parts, q: Parts, value: Parts)
    ensures MatchesParts(p + q, value) <==> SplitsSomewhere(p, q, value)
    decreases |p|
  {
    hide MatchesParts;
    if p == [] {
      assert p + q == q && value[0..] == value && value[..0] == [];
      EmptyPattern();
      if MatchesParts(q, value) {
        assert Splits(p, q, value, 0);
      }
    } else {
      if MatchesParts(p + q, value) {
        ConcatSplits(p, q, value);
      }
      if k :| 0 <= k <= |value| && Splits(p, q, value, k) {
        SplitJoins(p, q, value, k);
      }
    }
  }

  lemma {:induction false} ConcatSplits(p: Parts, q: Parts, value: Parts)
    requires p != [] && MatchesParts(p + q, value)
    ensures SplitsSomewhere(p, q, value)
    decreases |p|, 0
  {
    hide MatchesParts;
    var tail := p[1..];
    assert (p + q)[0] == p[0] && (p + q)[1..] == tail + q;
    MatchesByFirst(p + q, value);
    var i :| 0 <= i <= |value| && StandsFor(p[0], value[..i]) && MatchesParts(tail + q, value[i..]);
    var rest := value[i..];
    ConcatMatches(tail, q, rest);
    var j :| 0 <= j <= |rest| && Splits(tail, q, rest, j);
    var front := value[..i + j];
    assert rest[j..] == value[i + j..] && front[i..] == rest[..j] && front[..i] == value[..i];
    MatchesByFirst(p, front);
    SplitsHere(p, q, value, i + j);
  }

  lemma {:induction false} SplitJoins(p: Parts, q: Parts, value: Parts, k: nat)
    requires p != [] && k <= |value| && Splits(p, q, value, k)
    ensures MatchesParts(p + q, value)
    decreases |p|, 0
  {
    hide MatchesParts;
    var tail, front := p[1..], value[..k];
    assert (p + q)[0] == p[0] && (p + q)[1..] == tail + q;
    MatchesByFirst(p, front);
    var i :| 0 <= i <= k && StandsFor(p[0], front[..i]) && MatchesParts(tail, front[i..]);
    var rest := value[i..];
    assert front[..i] == value[..i] && front[i..] == rest[..k - i] && rest[k - i..] == value[k..];
    SplitsHere(tail, q, rest, k - i);
    ConcatMatches(tail, q, rest);
    MatchesByFirst(p + q, value);
  }

  lemma {:induction false} EmptyPattern()
    ensures forall value :: MatchesParts([], value) <==> value == []
  {
  }

  lemma {:induction false} StarsMatchAnything(value: Parts)
    ensures MatchesParts(["**"], value)
    ensures MatchesParts(["**", "**"], value)
  {
    assert ["**", "**"][1..] == ["**"];
    assert MatchesParts(["**"], value[0..]);
  }

  /** Adjacent `**` count as one, anywhere in a pattern. */
  lemma {:induction false} AdjacentStarsCollapse(p: Parts, q: Parts, value: Parts)
    ensures MatchesParts(p + (["**", "**"] + q), value) <==> MatchesParts(p + (["**"] + q), value)
  {
    hide MatchesParts;
    forall v: Parts
      ensures MatchesParts(["**", "**"] + q, v) <==> MatchesParts(["**"] + q, v)
    {
      ConcatMatches(["**", "**"], q, v);
      ConcatMatches(["**"], q, v);
      forall k | 0 <= k <= |v|
        ensures Splits(["**", "**"], q, v, k) <==> Splits(["**"], q, v, k)
      {
        StarsMatchAnything(v[..k]);
      }
    }
    ConcatMatches(p, ["**", "**"] + q, value);
    ConcatMatches(p, ["**"] + q, value);
    forall k | 0 <= k <= |value|
      ensures Splits(p, ["**", "**"] + q, value, k) <==> Splits(p, ["**"] + q, value, k)
    {
    }
  }

  // ---------------------------------------------------------------------------------------
  // Dotted paths

  /** `s.split(".")`. */
  function SplitDots(s: string): (parts: Parts)
    ensures parts != []
  {
    if s == [] then [[]]
    else
      var rest := SplitDots(s[1..]);
      if s[0] == '.' then [[]] + rest else [[s[0]] + rest[0]] + rest[1..]
  }

  predicate PathMatchesPattern(pattern: string, value: string) {
    MatchesParts(SplitDots(pattern), SplitDots(value))
  }

  lemma {:induction false} SplitDotsConcat(a: string, b: string)
    ensures SplitDots(a + ("." + b)) == SplitDots(a) + SplitDots(b)
  {
    if a == [] {
      assert a + ("." + b) == ['.'] + b;
      assert (['.'] + b)[1..] == b;
    } else {
      assert (a + ("." + b))[1..] == a[1..] + ("." + b);
      SplitDotsConcat(a[1..], b);
    }
  }

  /** `parts.join(".")`. */
  function JoinDots(parts: Parts): string {
    if parts == [] then []
    else if |parts| == 1 then parts[0]
    else parts[0] + ("." + JoinDots(parts[1..]))
  }

  lemma {:induction false} SplitOfDotless(s: string)
    requires '.' !in s
    ensures SplitDots(s) == [s]
  {
    if s != [] {
      SplitOfDotless(s[1..]);
      assert s == [s[0]] + s[1..];
    }
  }

  lemma {:induction false} SplitOfJoin(parts: Parts)
    requires parts != [] && forall i :: 0 <= i < |parts| ==> '.' !in parts[i]
    ensures SplitDots(JoinDots(parts)) == parts
  {
    SplitOfDotless(parts[0]);
    if |parts| > 1 {
      SplitOfJoin(parts[1..]);
      SplitDotsConcat(parts[0], JoinDots(parts[1..]));
    }
  }

  lemma {:induction false} JoinOfSplit(s: string)
    ensures JoinDots(SplitDots(s)) == s
    ensures forall i :: 0 <= i < |SplitDots(s)| ==> '.' !in SplitDots(s)[i]
  {
    if s != [] {
      var parts, rest := SplitDots(s), SplitDots(s[1..]);
      JoinOfSplit(s[1..]);
      if s[0] == '.' {
        assert parts[1..] == rest;
        assert [] + ("." + s[1..]) == s;
      } else {
        assert parts[1..] == rest[1..];
        assert |rest| > 1 ==> [s[0]] + (rest[0] + ("." + JoinDots(rest[1..])))
                              == parts[0] + ("." + JoinDots(parts[1..]));
      }
    }
  }

  /** The parts of a dotted text are exactly the dotless texts that give it back when joined. */
  lemma {:induction false} SplitDotsExactly(s: string, parts: Parts)
    ensures SplitDots(s) == parts
            <==> parts != [] && JoinDots(parts) == s && forall i :: 0 <= i < |parts| ==> '.' !in parts[i]
  {
    JoinOfSplit(s);
    if parts != [] && forall i :: 0 <= i < |parts| ==> '.' !in parts[i] {
      SplitOfJoin(parts);
    }
  }

  /** The law for dotted patterns and paths as they are written. */
  lemma {:induction false} DottedConcatMatches(p: string, q: string, value: string)
    ensures PathMatchesPattern(p + ("." + q), value)
            <==> SplitsSomewhere(SplitDots(p), SplitDots(q), SplitDots(value))
  {
    hide SplitDots, MatchesParts, SplitsSomewhere;
    SplitDotsConcat(p, q);
    ConcatMatches(SplitDots(p), SplitDots(q), SplitDots(value));
  }
}
