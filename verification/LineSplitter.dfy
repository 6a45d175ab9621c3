/** Cutting child output into lines as it arrives in chunks (scripts/bench-gateway-restart.ts). */
module LineSplitter {
  import opened Text
  import opened Sequences

  function FirstBreak(t: string): (n: nat)
    ensures n <= |t| && '\n' !in t[..n]
    ensures n < |t| ==> t[n] == '\n'
  {
    if t == [] || t[0] == '\n' then 0 else
      assert t == [t[0]] + t[1..];
      1 + FirstBreak(t[1..])
  }

  function DropReturn(line: string): string {
    if line != [] && line[|line| - 1] == '\r' then line[..|line| - 1] else line
  }

  /** `t.split(/\r?\n/)`: the lines that are ended, and the rest. */
  function Split(t: string): (lines: seq<string>)
    ensures lines != []
  {
    var n := FirstBreak(t);
    if n == |t| then [t] else [DropReturn(t[..n])] + Split(t[n + 1..])
  }

  // ---------------------------------------------------------------------------------------
  // What splitting means

  lemma {:induction false} ReplaceLine(line: string, rest: string)
    requires '\n' !in line
    ensures ReplaceAll(line + ("\n" + rest), "\r\n", "\n") == DropReturn(line) + ("\n" + ReplaceAll(rest, "\r\n", "\n"))
  {
    hide ReplaceAll;
    if line == [] {
      assert line + ("\n" + rest) == ['\n'] + rest;
      assert (['\n'] + rest)[0] == '\n';
      ReplaceSkip('\n', rest, "\r\n", "\n");
      assert [] + ("\n" + ReplaceAll(rest, "\r\n", "\n")) == ['\n'] + ReplaceAll(rest, "\r\n", "\n");
    } else if line == "\r" {
      assert line + ("\n" + rest) == "\r\n" + rest;
      ReplaceMatch("\r\n", rest, "\n");
      assert [] + ("\n" + ReplaceAll(rest, "\r\n", "\n")) == "\n" + ReplaceAll(rest, "\r\n", "\n");
    } else {
      var c, more := line[0], line[1..];
      assert line == [c] + more;
      var u := more + ("\n" + rest);
      assert line + ("\n" + rest) == [c] + u;
      assert c == '\r' ==> more != [] && u[0] == more[0] && more[0] in line;
      assert ([c] + u)[0] == c && ([c] + u)[1] == u[0];
      ReplaceSkip(c, u, "\r\n", "\n");
      ReplaceLine(more, rest);
      DropReturnOfCons(c, more);
      var v := "\n" + ReplaceAll(rest, "\r\n", "\n");
      assert [c] + (DropReturn(more) + v) == ([c] + DropReturn(more)) + v;
    }
  }

  lemma {:induction false} DropReturnOfCons(c: char, more: string)
    requires more != [] || c != '\r'
    ensures DropReturn([c] + more) == [c] + DropReturn(more)
  {
  }

  lemma {:induction false} ReplaceNothing(t: string)
    requires '\n' !in t
    ensures ReplaceAll(t, "\r\n", "\n") == t
  {
    if t != [] {
      ReplaceNothing(t[1..]);
      assert t == [t[0]] + t[1..];
      assert |t| > 1 ==> t[1] in t;
      ReplaceSkip(t[0], t[1..], "\r\n", "\n");
    }
  }

  /** Splitting is undone by joining with line feeds, up to the carriage returns before them, and no
      part contains a line feed; so the parts are exactly the lines. */
  lemma {:induction false} SplitMeansLines(t: string)
    ensures Join(Split(t)) == ReplaceAll(t, "\r\n", "\n")
    ensures forall i :: 0 <= i < |Split(t)| ==> '\n' !in Split(t)[i]
  {
    hide ReplaceAll, DropReturn, Join;
    var n := FirstBreak(t);
    if n == |t| {
      assert t[..n] == t;
      ReplaceNothing(t);
      JoinOne(t);
    } else {
      var line, rest := t[..n], t[n + 1..];
      assert t == line + ("\n" + rest);
      SplitMeansLines(rest);
      SplitAtBreak(t, n);
      hide Split, FirstBreak;
      ReplaceLine(line, rest);
      JoinMore(DropReturn(line), Split(rest));
    }
    PartsAreLines(t);
  }

  lemma {:induction false} JoinOne(line: string)
    ensures Join([line]) == line
  {
  }

  lemma {:induction false} JoinMore(line: string, rest: seq<string>)
    requires rest != []
    ensures Join([line] + rest) == line + ("\n" + Join(rest))
  {
    assert ([line] + rest)[1..] == rest;
  }

  lemma {:induction false} PartsAreLines(t: string)
    ensures forall i :: 0 <= i < |Split(t)| ==> '\n' !in Split(t)[i]
  {
    var n := FirstBreak(t);
    if n == |t| {
      assert t[..n] == t;
    } else {
      SplitAtBreak(t, n);
      PartsAreLines(t[n + 1..]);
      hide Split, FirstBreak;
      assert '\n' !in DropReturn(t[..n]);
      hide DropReturn;
      var parts := [DropReturn(t[..n])] + Split(t[n + 1..]);
      assert forall i :: 0 < i < |parts| ==> parts[i] == Split(t[n + 1..])[i - 1];
    }
  }

  // ---------------------------------------------------------------------------------------
  // Chunks

  datatype Collected = Collected(carry: string, lines: seq<string>)

  function CollectOutputLines(carry: string, chunk: string): Collected {
    var parts := Split(carry + chunk);
    Collected(parts[|parts| - 1], parts[..|parts| - 1])
  }

  /** Splitting a longer text goes on from the unfinished last line. */
  ghost predicate Continues(parts: seq<string>, y: string, whole: seq<string>)
    requires parts != []
  {
    whole == parts[..|parts| - 1] + Split(parts[|parts| - 1] + y)
  }

  lemma {:induction false} SplitContinues(x: string, y: string)
    ensures Continues(Split(x), y, Split(x + y))
  {
    hide DropReturn, FirstBreak, Split, Continues;
    var n := FirstBreak(x);
    if n == |x| {
      UnfinishedContinues(x, y);
    } else {
      FirstLineOfLonger(x, y);
      SplitContinues(x[n + 1..], y);
      FirstLineAside(DropReturn(x[..n]), Split(x[n + 1..]), y, Split(x[n + 1..] + y));
    }
  }

  lemma {:induction false} UnfinishedContinues(x: string, y: string)
    requires FirstBreak(x) == |x|
    ensures Continues(Split(x), y, Split(x + y))
  {
    assert Split(x) == [x];
    hide Split;
    assert [x][..0] + Split(x + y) == Split(x + y);
  }

  lemma {:induction false} SplitAtBreak(t: string, n: nat)
    requires n == FirstBreak(t) < |t|
    ensures Split(t) == [DropReturn(t[..n])] + Split(t[n + 1..])
  {
  }

  lemma {:induction false} FirstLineOfLonger(x: string, y: string)
    requires FirstBreak(x) < |x|
    ensures var n := FirstBreak(x);
            && Split(x) == [DropReturn(x[..n])] + Split(x[n + 1..])
            && Split(x + y) == [DropReturn(x[..n])] + Split(x[n + 1..] + y)
  {
    hide DropReturn, Split;
    var n := FirstBreak(x);
    FirstBreakOfLonger(x, y);
    hide FirstBreak;
    SplitAtBreak(x, n);
    SplitAtBreak(x + y, n);
    assert (x + y)[..n] == x[..n] && (x + y)[n + 1..] == x[n + 1..] + y;
  }

  lemma {:induction false} FirstLineAside(line: string, more: seq<string>, y: string, whole: seq<string>)
    requires more != [] && Continues(more, y, whole)
    ensures Continues([line] + more, y, [line] + whole)
  {
    hide Split;
    var parts := [line] + more;
    assert parts[..|parts| - 1] == [line] + more[..|more| - 1];
    assert parts[|parts| - 1] == more[|more| - 1];
  }

  lemma {:induction false} FirstBreakOfLonger(x: string, y: string)
    requires FirstBreak(x) < |x|
    ensures FirstBreak(x + y) == FirstBreak(x)
  {
    if x[0] != '\n' {
      assert (x + y)[1..] == x[1..] + y;
      FirstBreakOfLonger(x[1..], y);
    }
  }

  lemma {:induction false} ChunkContinues(seen: string, emitted: seq<string>, carry: string, text: string)
    requires emitted + [carry] == Split(seen)
    ensures var now := CollectOutputLines(carry, text);
            emitted + now.lines + [now.carry] == Split(seen + text)
  {
    hide Split;
    var parts := emitted + [carry];
    SplitContinues(seen, text);
    assert parts[..|parts| - 1] == emitted;
    var now := CollectOutputLines(carry, text);
    assert now.lines + [now.carry] == Split(carry + text);
    assert emitted + (now.lines + [now.carry]) == emitted + now.lines + [now.carry];
  }

  /** The lines emitted so far and the carry, after feeding the chunks one by one. */
  function Stream(chunks: seq<string>): Collected {
    if chunks == [] then Collected("", []) else
      var before := Stream(chunks[..|chunks| - 1]);
      var now := CollectOutputLines(before.carry, chunks[|chunks| - 1]);
      Collected(now.carry, before.lines + now.lines)
  }

  /** However a text is cut into chunks, also between a carriage return and its line feed, the lines
      emitted and the final carry are the split of the whole text. */
  lemma {:induction false} StreamingIsSplitting(chunks: seq<string>)
    ensures Stream(chunks).lines + [Stream(chunks).carry] == Split(Flatten(chunks))
  {
    if chunks != [] {
      hide Split;
      var n := |chunks| - 1;
      var before := Stream(chunks[..n]);
      StreamingIsSplitting(chunks[..n]);
      ChunkContinues(Flatten(chunks[..n]), before.lines, before.carry, chunks[n]);
    }
  }

  // ---------------------------------------------------------------------------------------
  // The buffers of the two streams

  /** One carry per stream; `seen` and `emitted` are the history of each. */
  class OutputBuffers {
    var stdout: string
    var stderr: string
    ghost var outSeen: string
    ghost var errSeen: string
    ghost var outEmitted: seq<string>
    ghost var errEmitted: seq<string>

    ghost predicate Valid()
      reads this
    {
      outEmitted + [stdout] == Split(outSeen) && errEmitted + [stderr] == Split(errSeen)
    }

    constructor ()
      ensures Valid() && outSeen == "" && errSeen == ""
    {
      stdout, stderr := "", "";
      outSeen, errSeen, outEmitted, errEmitted := "", "", [], [];
    }

    /** The data handler of a stream; `lines` are handed to `onLine`. */
    method OnChunk(toStderr: bool, text: string) returns (lines: seq<string>)
      requires Valid()
      modifies this
      ensures Valid()
      ensures if toStderr
              then errSeen == old(errSeen) + text && errEmitted == old(errEmitted) + lines
                   && stdout == old(stdout) && outSeen == old(outSeen) && outEmitted == old(outEmitted)
              else outSeen == old(outSeen) + text && outEmitted == old(outEmitted) + lines
                   && stderr == old(stderr) && errSeen == old(errSeen) && errEmitted == old(errEmitted)
    {
      var parsed := CollectOutputLines(if toStderr then stderr else stdout, text);
      lines := parsed.lines;
      if toStderr {
        ChunkContinues(errSeen, errEmitted, stderr, text);
        stderr := parsed.carry;
        errSeen, errEmitted := errSeen + text, errEmitted + lines;
      } else {
        ChunkContinues(outSeen, outEmitted, stdout, text);
        stdout := parsed.carry;
        outSeen, outEmitted := outSeen + text, outEmitted + lines;
      }
    }

    /** The end of both streams: the partial lines are handed on, stdout first.  Together with the lines
        handed on before they are the lines of each text; the buffers are then as new. */
    method Flush(flushPartial: bool) returns (lines: seq<string>)
      requires Valid()
      modifies this
      ensures Valid()
      ensures !flushPartial ==> lines == [] && unchanged(this)
      ensures flushPartial ==>
                && lines == Partial(old(stdout)) + Partial(old(stderr))
                && old(outEmitted) + Partial(old(stdout)) == Lines(old(outSeen))
                && old(errEmitted) + Partial(old(stderr)) == Lines(old(errSeen))
                && outSeen == "" && errSeen == "" && outEmitted == [] && errEmitted == []
    {
      lines := [];
      if !flushPartial {
        return;
      }
      PartialCompletes(outEmitted, stdout, outSeen);
      PartialCompletes(errEmitted, stderr, errSeen);
      if stdout != "" {
        lines := lines + [stdout];
        stdout := "";
      }
      if stderr != "" {
        lines := lines + [stderr];
        stderr := "";
      }
      outSeen, errSeen, outEmitted, errEmitted := "", "", [], [];
    }
  }

  // ---------------------------------------------------------------------------------------
  // The end of a text

  /** The lines of a text; the part after a final line break is none. */
  function Lines(t: string): seq<string> {
    var parts := Split(t);
    if parts[|parts| - 1] == "" then parts[..|parts| - 1] else parts
  }

  function Partial(carry: string): seq<string> {
    if carry == "" then [] else [carry]
  }

  lemma {:induction false} PartialCompletes(emitted: seq<string>, carry: string, seen: string)
    requires emitted + [carry] == Split(seen)
    ensures emitted + Partial(carry) == Lines(seen)
  {
    hide Split;
    assert (emitted + [carry])[..|emitted|] == emitted;
    assert emitted + [] == emitted;
  }
}
