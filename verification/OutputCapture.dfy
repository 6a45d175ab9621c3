/** Bounded capture of child output (scripts/control-ui-i18n.ts). */
module OutputCapture {
  import opened Wrappers
  import opened Sequences

  datatype Capture = Capture(text: string, truncatedChars: nat)

  const EMPTY := Capture("", 0)

  /** The last n characters. */
  function Tail(s: string, n: nat): (r: string)
    ensures |r| == if |s| <= n then |s| else n
  {
    if |s| <= n then s else s[|s| - n..]
  }

  /** `text.slice(-maxChars)`, which keeps everything when `maxChars` is zero. */
  function SliceFromEnd(s: string, maxChars: nat): string {
    if maxChars == 0 then s else Tail(s, maxChars)
  }

  function AppendBounded(capture: Capture, chunk: string, maxChars: nat): Capture {
    var nextText := capture.text + chunk;
    if |nextText| <= maxChars then
      Capture(nextText, capture.truncatedChars)
    else
      Capture(SliceFromEnd(nextText, maxChars), capture.truncatedChars + |nextText| - maxChars)
  }

  const RUN_PROCESS_OUTPUT_MAX_CHARS: nat := 1024 * 1024

  /** The limit in force; None stands for an option that is absent or not a finite number. */
  function OutputLimit(requested: Option<real>): (limit: nat)
    ensures requested.None? || requested.value <= 0.0 ==> limit == RUN_PROCESS_OUTPUT_MAX_CHARS
    ensures requested.Some? && 0.0 < requested.value < 1.0 ==> limit == 1
    ensures requested.Some? && requested.value >= 1.0 ==>
              1 <= limit && limit as real <= requested.value < limit as real + 1.0
  {
    if requested.None? || requested.value <= 0.0 then RUN_PROCESS_OUTPUT_MAX_CHARS
    else if requested.value.Floor < 1 then 1
    else requested.value.Floor
  }

  /** The capture holds the end of what was heard, and accounts for the rest. */
  predicate Holds(capture: Capture, heard: string, maxChars: nat) {
    capture.text == Tail(heard, maxChars) && |capture.text| + capture.truncatedChars == |heard|
  }

  lemma {:induction false} AppendKeepsTail(capture: Capture, heard: string, chunk: string, maxChars: nat)
    requires maxChars >= 1 && Holds(capture, heard, maxChars)
    ensures Holds(AppendBounded(capture, chunk, maxChars), heard + chunk, maxChars)
  {
    TailOfMore(heard, chunk, maxChars);
    hide Tail;
  }

  lemma {:induction false} TailOfMore(heard: string, chunk: string, n: nat)
    ensures Tail(Tail(heard, n) + chunk, n) == Tail(heard + chunk, n)
    ensures |Tail(heard, n) + chunk| <= n ==> Tail(heard, n) + chunk == Tail(heard + chunk, n)
  {
    if |heard| > n {
      var k, all := |heard| - n, heard + chunk;
      var near := heard[k..] + chunk;
      assert Tail(heard, n) == heard[k..] && Tail(all, n) == all[k + |chunk|..];
      assert Tail(near, n) == if chunk == [] then near else near[|chunk|..];
      hide Tail;
      SuffixAndChunk(heard, chunk, k);
      SuffixOfSuffix(all, k, |chunk|);
    }
  }

  lemma {:induction false} SuffixAndChunk(heard: string, chunk: string, k: nat)
    requires k <= |heard|
    ensures (heard + chunk)[k..] == heard[k..] + chunk
  {
  }

  lemma {:induction false} SuffixOfSuffix(s: string, k: nat, j: nat)
    requires k + j <= |s|
    ensures s[k..][j..] == s[k + j..]
  {
  }

  function Captured(chunks: seq<string>, maxChars: nat): Capture {
    if chunks == [] then EMPTY
    else AppendBounded(Captured(chunks[..|chunks| - 1], maxChars), chunks[|chunks| - 1], maxChars)
  }

  /** With a positive limit the capture is the last characters of the whole output, however the
      output was cut into chunks. */
  lemma {:induction false} CaptureIsTailOfOutput(chunks: seq<string>, maxChars: nat)
    requires maxChars >= 1
    ensures Holds(Captured(chunks, maxChars), Flatten(chunks), maxChars)
  {
    if chunks != [] {
      CaptureIsTailOfOutput(chunks[..|chunks| - 1], maxChars);
      AppendKeepsTail(Captured(chunks[..|chunks| - 1], maxChars), Flatten(chunks[..|chunks| - 1]),
                      chunks[|chunks| - 1], maxChars);
    }
  }

  /** The exported function also takes a limit of zero, and then nothing is ever dropped: it meets
      the promise exactly when nothing was heard. */
  lemma {:induction false} ZeroLimitKeepsEverything(chunks: seq<string>)
    ensures Captured(chunks, 0).text == Flatten(chunks)
    ensures Holds(Captured(chunks, 0), Flatten(chunks), 0) <==> Flatten(chunks) == ""
  {
    if chunks != [] {
      ZeroLimitKeepsEverything(chunks[..|chunks| - 1]);
    }
  }
}
