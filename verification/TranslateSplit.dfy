/**
 Translating one batch with retries, split in two when a prompt times out
 (scripts/control-ui-i18n.ts).  The provider is any sequence of replies.
*/
module TranslateSplit {
  import opened Wrappers
  import opened Text
  import opened Sequences
  import opened Placeholders
  import opened TranslationBatching

  const TRANSLATE_MAX_ATTEMPTS: nat := 2

  /** What a prompt comes back with: an error, a text that is no JSON object, or an object of which
      only the string-valued fields matter. */
  datatype Reply = Rejected(message: string) | Unparsable(message: string) | Answer(fields: map<string, string>)

  /** `describe` words the error about placeholders that do not match. */
  type Describe = (seq<Item>, map<string, string>) -> string

  function Lower(c: char): char {
    if 'A' <= c <= 'Z' then c - 'A' + 'a' else c
  }

  function LowerCase(s: string): string {
    seq(|s|, i requires 0 <= i < |s| => Lower(s[i]))
  }

  predicate Includes(s: string, part: string) {
    exists i :: 0 <= i <= |s| && part <= s[i..]
  }

  predicate IsTimeout(message: string) {
    Includes(LowerCase(message), "timed out")
  }

  // ---------------------------------------------------------------------------------------
  // Accepting a reply

  /** The key to text map of the items; the last of several items with one key counts. */
  function Texts(items: seq<Item>): map<string, string> {
    if items == [] then map[] else
      var last := items[|items| - 1];
      Texts(items[..|items| - 1])[last.key := last.text]
  }

  predicate Usable(fields: map<string, string>, key: string) {
    key in fields && Trim(fields[key]) != ""
  }

  predicate Matching(items: seq<Item>, translated: map<string, string>) {
    forall key :: key in Texts(items).Keys ==>
      Extract(Texts(items)[key]) == Extract(if key in translated then translated[key] else "")
  }

  function FirstUnusable(items: seq<Item>, fields: map<string, string>): (k: Option<string>)
    ensures k.None? <==> forall i :: 0 <= i < |items| ==> Usable(fields, items[i].key)
  {
    if items == [] then None
    else if !Usable(fields, items[0].key) then Some(items[0].key)
    else
      assert forall i :: 0 < i < |items| ==> items[i] == items[1..][i - 1];
      FirstUnusable(items[1..], fields)
  }

  function Picked(items: seq<Item>, fields: map<string, string>): map<string, string> {
    map key | key in (set item | item in items :: item.key) && key in fields :: fields[key]
  }

  function ParseReply(items: seq<Item>, reply: Reply, describe: Describe): Result<map<string, string>, string> {
    match reply
    case Rejected(message) => Err(message)
    case Unparsable(message) => Err(message)
    case Answer(fields) =>
      match FirstUnusable(items, fields)
      case Some(key) => Err("missing translation for " + key)
      case None =>
        var translated := Picked(items, fields);
        if Matching(items, translated) then Ok(translated) else Err(describe(items, translated))
  }

  method ParseTranslationBatchReply(items: seq<Item>, reply: Reply, describe: Describe)
    returns (r: Result<map<string, string>, string>)
    ensures r == ParseReply(items, reply, describe)
  {
    if !reply.Answer? {
      return Err(reply.message);
    }
    hide Matching, Usable, Trim, Picked;
    var translated: map<string, string> := map[];
    assert items[0..] == items;
    NothingPicked(reply.fields);
    for i := 0 to |items|
      invariant FirstUnusable(items, reply.fields) == FirstUnusable(items[i..], reply.fields)
      invariant translated == Picked(items[..i], reply.fields)
    {
      var item := items[i];
      assert items[i..][0] == item && items[i..][1..] == items[i + 1..];
      PickedStep(items, i, reply.fields);
      if !Usable(reply.fields, item.key) {
        return Err("missing translation for " + item.key);
      }
      translated := translated[item.key := reply.fields[item.key]];
    }
    assert items[..|items|] == items && items[|items|..] == [];
    return if Matching(items, translated) then Ok(translated) else Err(describe(items, translated));
  }

  lemma {:induction false} NothingPicked(fields: map<string, string>)
    ensures Picked([], fields) == map[]
  {
  }

  lemma {:induction false} PickedStep(items: seq<Item>, i: nat, fields: map<string, string>)
    requires i < |items|
    ensures var key := items[i].key;
            Usable(fields, key) ==>
              key in fields && Picked(items[..i + 1], fields) == Picked(items[..i], fields)[key := fields[key]]
  {
    assert items[..i + 1] == items[..i] + [items[i]];
  }

  // ---------------------------------------------------------------------------------------
  // Attempts and splits

  datatype Run = Run(result: Result<map<string, string>, string>, used: nat)

  function Midpoint(items: seq<Item>): nat {
    (|items| + 1) / 2
  }

  /** The batch from attempt number `attempt` on, when `used` prompts have been sent already. */
  function Attempts(items: seq<Item>, replies: nat -> Reply, describe: Describe, used: nat, attempt: nat): Run
    requires attempt < TRANSLATE_MAX_ATTEMPTS
    decreases |items|, TRANSLATE_MAX_ATTEMPTS - attempt
  {
    match ParseReply(items, replies(used), describe)
    case Ok(translated) => Run(Ok(translated), used + 1)
    case Err(message) =>
      if IsTimeout(message) then
        if |items| > 1 then Split(items, replies, describe, used + 1) else Run(Err(message), used + 1)
      else if attempt + 1 < TRANSLATE_MAX_ATTEMPTS then Attempts(items, replies, describe, used + 1, attempt + 1)
      else Run(Err(message), used + 1)
  }

  function Split(items: seq<Item>, replies: nat -> Reply, describe: Describe, used: nat): Run
    requires |items| > 1
    decreases |items|, 0
  {
    var midpoint := Midpoint(items);
    var left := Attempts(items[..midpoint], replies, describe, used, 0);
    if left.result.Err? then left else
      var right := Attempts(items[midpoint..], replies, describe, left.used, 0);
      if right.result.Err? then right else Run(Ok(left.result.value + right.result.value), right.used)
  }

  method TranslateBatch(items: seq<Item>, replies: nat -> Reply, describe: Describe, start: nat)
    returns (r: Result<map<string, string>, string>, used: nat)
    ensures Run(r, used) == Attempts(items, replies, describe, start, 0)
    decreases |items|
  {
    used := start;
    var lastError: string := "translation failed";
    for attempt := 0 to TRANSLATE_MAX_ATTEMPTS
      invariant attempt < TRANSLATE_MAX_ATTEMPTS ==>
                  Attempts(items, replies, describe, start, 0) == Attempts(items, replies, describe, used, attempt)
      invariant attempt == TRANSLATE_MAX_ATTEMPTS ==>
                  Attempts(items, replies, describe, start, 0) == Run(Err(lastError), used)
    {
      hide ParseReply, IsTimeout;
      var translated := ParseTranslationBatchReply(items, replies(used), describe);
      used := used + 1;
      if translated.Ok? {
        return translated, used;
      }
      lastError := translated.error;
      if IsTimeout(lastError) && |items| > 1 {
        var midpoint := Midpoint(items);
        var left, right;
        left, used := TranslateBatch(items[..midpoint], replies, describe, used);
        if left.Err? {
          return left, used;
        }
        right, used := TranslateBatch(items[midpoint..], replies, describe, used);
        if right.Err? {
          return right, used;
        }
        return Ok(left.value + right.value), used;
      }
      if IsTimeout(lastError) {
        return Err(lastError), used;
      }
    }
    return Err(lastError), used;
  }

  // ---------------------------------------------------------------------------------------
  // What a translated batch contains

  predicate DistinctKeys(items: seq<Item>) {
    forall i, j :: 0 <= i < j < |items| ==> items[i].key != items[j].key
  }

  ghost predicate HasKey(items: seq<Item>, key: string) {
    exists i :: 0 <= i < |items| && items[i].key == key
  }

  /** A text that is not blank and has the placeholders of the source. */
  predicate Fits(item: Item, text: string) {
    Trim(text) != "" && Extract(text) == Extract(item.text)
  }

  /** Exactly the keys of the items, each with a fitting text. */
  ghost predicate Complete(items: seq<Item>, translated: map<string, string>) {
    && (forall key :: key in translated ==> HasKey(items, key))
    && forall i :: 0 <= i < |items| ==> items[i].key in translated && Fits(items[i], translated[items[i].key])
  }

  lemma {:induction false} TextsOfDistinct(items: seq<Item>, i: nat)
    requires DistinctKeys(items) && i < |items|
    ensures items[i].key in Texts(items) && Texts(items)[items[i].key] == items[i].text
  {
    if i < |items| - 1 {
      TextsOfDistinct(items[..|items| - 1], i);
    }
  }

  lemma {:induction false} AcceptedIsComplete(items: seq<Item>, reply: Reply, describe: Describe)
    requires DistinctKeys(items) && ParseReply(items, reply, describe).Ok?
    ensures Complete(items, ParseReply(items, reply, describe).value)
  {
    var translated := ParseReply(items, reply, describe).value;
    hide Texts, Extract, Trim;
    forall key | key in translated
      ensures HasKey(items, key)
    {
      var item :| item in items && item.key == key;
      var i :| 0 <= i < |items| && items[i] == item;
    }
    forall i | 0 <= i < |items|
      ensures items[i].key in translated && Fits(items[i], translated[items[i].key])
    {
      assert items[i] in items;
      assert Usable(reply.fields, items[i].key);
      TextsOfDistinct(items, i);
    }
  }

  lemma {:induction false} HasKeyOfPart(items: seq<Item>, from: nat, to: nat, key: string)
    requires from <= to <= |items| && HasKey(items[from..to], key)
    ensures HasKey(items, key)
  {
    var part := items[from..to];
    var i :| 0 <= i < |part| && part[i].key == key;
    assert items[from + i].key == key;
  }

  lemma {:induction false} CompleteJoins(items: seq<Item>, midpoint: nat, left: map<string, string>,
                                         right: map<string, string>)
    requires DistinctKeys(items) && midpoint <= |items|
    requires Complete(items[..midpoint], left) && Complete(items[midpoint..], right)
    ensures Complete(items, left + right)
  {
    hide Fits;
    var a, b := items[..midpoint], items[midpoint..];
    assert items[0..midpoint] == a && items[midpoint..|items|] == b;
    forall key | key in left + right
      ensures HasKey(items, key)
    {
      if key in right {
        HasKeyOfPart(items, midpoint, |items|, key);
      } else {
        HasKeyOfPart(items, 0, midpoint, key);
      }
    }
    forall i | 0 <= i < |items|
      ensures items[i].key in left + right && Fits(items[i], (left + right)[items[i].key])
    {
      if i < midpoint {
        assert a[i] == items[i];
        assert items[i].key !in right;
      } else {
        assert b[i - midpoint] == items[i];
      }
    }
  }

  /** Whenever a batch of distinct keys is translated, whatever the provider does on the way, the
      result is complete. */
  lemma {:induction false} TranslatedIsComplete(items: seq<Item>, replies: nat -> Reply, describe: Describe, used: nat,
                                                attempt: nat)
    requires DistinctKeys(items) && attempt < TRANSLATE_MAX_ATTEMPTS
    requires Attempts(items, replies, describe, used, attempt).result.Ok?
    ensures Complete(items, Attempts(items, replies, describe, used, attempt).result.value)
    decreases |items|, TRANSLATE_MAX_ATTEMPTS - attempt
  {
    hide Complete, ParseReply, IsTimeout;
    var parsed := ParseReply(items, replies(used), describe);
    if parsed.Ok? {
      AcceptedIsComplete(items, replies(used), describe);
    } else if IsTimeout(parsed.error) {
      var midpoint := Midpoint(items);
      var left := Attempts(items[..midpoint], replies, describe, used + 1, 0);
      TranslatedIsComplete(items[..midpoint], replies, describe, used + 1, 0);
      TranslatedIsComplete(items[midpoint..], replies, describe, left.used, 0);
      CompleteJoins(items, midpoint, left.result.value,
                    Attempts(items[midpoint..], replies, describe, left.used, 0).result.value);
    } else {
      TranslatedIsComplete(items, replies, describe, used + 1, attempt + 1);
    }
  }

  /** A batch of n items sends at least one prompt and at most 4n - 2 (two for an empty batch). */
  lemma {:induction false} PromptBound(items: seq<Item>, replies: nat -> Reply, describe: Describe, used: nat,
                                       attempt: nat)
    requires attempt < TRANSLATE_MAX_ATTEMPTS
    ensures var n := Attempts(items, replies, describe, used, attempt).used - used;
            1 <= n <= (if items == [] then 2 else 4 * |items| - 2) - attempt
    decreases |items|, TRANSLATE_MAX_ATTEMPTS - attempt
  {
    hide ParseReply, IsTimeout;
    var parsed := ParseReply(items, replies(used), describe);
    if parsed.Err? && IsTimeout(parsed.error) && |items| > 1 {
      var midpoint := Midpoint(items);
      var left := Attempts(items[..midpoint], replies, describe, used + 1, 0);
      PromptBound(items[..midpoint], replies, describe, used + 1, 0);
      PromptBound(items[midpoint..], replies, describe, left.used, 0);
    } else if parsed.Err? && !IsTimeout(parsed.error) && attempt + 1 < TRANSLATE_MAX_ATTEMPTS {
      PromptBound(items, replies, describe, used + 1, attempt + 1);
    }
  }

  // ---------------------------------------------------------------------------------------
  // Which replies are accepted

  /** Every item has a text that is not blank. */
  predicate HasTexts(items: seq<Item>, fields: map<string, string>) {
    forall i :: 0 <= i < |items| ==> items[i].key in fields && Trim(fields[items[i].key]) != ""
  }

  /** The text of each item has its placeholders; of several items with one key the last one counts. */
  predicate KeepsPlaceholders(items: seq<Item>, fields: map<string, string>)
    requires HasTexts(items, fields)
  {
    forall i :: 0 <= i < |items| && IsLastWithKey(items, i) ==>
      Extract(fields[items[i].key]) == Extract(items[i].text)
  }

  predicate Acceptable(items: seq<Item>, fields: map<string, string>) {
    HasTexts(items, fields) && KeepsPlaceholders(items, fields)
  }

  predicate IsLastWithKey(items: seq<Item>, i: nat)
    requires i < |items|
  {
    forall j :: i < j < |items| ==> items[j].key != items[i].key
  }

  /** The fields of the items and no others. */
  ghost predicate HoldsFieldsOf(translated: map<string, string>, items: seq<Item>, fields: map<string, string>) {
    forall key :: if HasKey(items, key) then key in fields && key in translated && translated[key] == fields[key]
                  else key !in translated
  }

  lemma {:induction false} TextsOfLast(items: seq<Item>, i: nat)
    requires i < |items| && IsLastWithKey(items, i)
    ensures items[i].key in Texts(items) && Texts(items)[items[i].key] == items[i].text
  {
    if i < |items| - 1 {
      TextsOfLast(items[..|items| - 1], i);
    }
  }

  lemma {:induction false} LastWithKey(items: seq<Item>, key: string) returns (i: nat)
    requires key in Texts(items)
    ensures i < |items| && items[i].key == key && IsLastWithKey(items, i)
  {
    var n := |items| - 1;
    if items[n].key == key {
      i := n;
    } else {
      i := LastWithKey(items[..n], key);
    }
  }

  /** Comparing the placeholders of the two maps is comparing those of each item that counts. */
  lemma {:induction false} MatchingIs(items: seq<Item>, translated: map<string, string>)
    requires forall i :: 0 <= i < |items| ==> items[i].key in translated
    ensures Matching(items, translated) <==>
              forall i :: 0 <= i < |items| && IsLastWithKey(items, i) ==>
                Extract(translated[items[i].key]) == Extract(items[i].text)
  {
    hide Extract, IsLastWithKey, Texts;
    forall i | 0 <= i < |items| && IsLastWithKey(items, i)
      ensures items[i].key in Texts(items) && Texts(items)[items[i].key] == items[i].text
    {
      TextsOfLast(items, i);
    }
    forall key | key in Texts(items)
      ensures exists i :: 0 <= i < |items| && items[i].key == key && IsLastWithKey(items, i)
    {
      var i := LastWithKey(items, key);
    }
  }

  lemma {:induction false} PickedIs(items: seq<Item>, fields: map<string, string>)
    requires forall i :: 0 <= i < |items| ==> items[i].key in fields
    ensures HoldsFieldsOf(Picked(items, fields), items, fields)
  {
    var picked := Picked(items, fields);
    forall key
      ensures if HasKey(items, key) then key in fields && key in picked && picked[key] == fields[key]
              else key !in picked
    {
      if HasKey(items, key) {
        var i :| 0 <= i < |items| && items[i].key == key;
        assert items[i] in items;
      }
    }
  }

  /** Exactly the answers with a fitting text for every key are accepted, with these texts. */
  lemma {:induction false} AcceptedExactly(items: seq<Item>, reply: Reply, describe: Describe)
    ensures var r := ParseReply(items, reply, describe);
            && (r.Ok? <==> reply.Answer? && Acceptable(items, reply.fields))
            && (r.Ok? ==> HoldsFieldsOf(r.value, items, reply.fields))
  {
    hide KeepsPlaceholders, Picked, Matching, HoldsFieldsOf, HasTexts, FirstUnusable, Usable;
    if reply.Answer? {
      UsableIsHasTexts(items, reply.fields);
      if HasTexts(items, reply.fields) {
        MatchingPicked(items, reply.fields);
      }
    }
  }

  lemma {:induction false} UsableIsHasTexts(items: seq<Item>, fields: map<string, string>)
    ensures FirstUnusable(items, fields).None? <==> HasTexts(items, fields)
  {
    hide Trim, FirstUnusable;
    assert (forall i :: 0 <= i < |items| ==> Usable(fields, items[i].key)) <==> HasTexts(items, fields);
  }

  lemma {:induction false} MatchingPicked(items: seq<Item>, fields: map<string, string>)
    requires HasTexts(items, fields)
    ensures HoldsFieldsOf(Picked(items, fields), items, fields)
    ensures Matching(items, Picked(items, fields)) <==> KeepsPlaceholders(items, fields)
  {
    hide Trim, Extract, IsLastWithKey, Texts, Picked, Matching;
    PickedIs(items, fields);
    var picked := Picked(items, fields);
    forall i | 0 <= i < |items|
      ensures items[i].key in picked && picked[items[i].key] == fields[items[i].key]
    {
      assert HasKey(items, items[i].key);
    }
    MatchingIs(items, picked);
  }

  /** The first item without a usable text. */
  predicate FirstWithoutText(items: seq<Item>, fields: map<string, string>, i: nat) {
    i < |items| && !Usable(fields, items[i].key) && forall j :: 0 <= j < i ==> Usable(fields, items[j].key)
  }

  lemma {:induction false} FirstUnusableIs(items: seq<Item>, fields: map<string, string>, i: nat)
    requires FirstWithoutText(items, fields, i)
    ensures FirstUnusable(items, fields) == Some(items[i].key)
  {
    hide Usable;
    if i > 0 {
      assert forall j :: 0 <= j < i - 1 ==> items[1..][j] == items[j + 1];
      FirstUnusableIs(items[1..], fields, i - 1);
    }
  }

  /** The error of a reply that is refused: its own message, the first key without a text, or, when every
      item has one, the placeholders. */
  lemma {:induction false} RefusedWith(items: seq<Item>, reply: Reply, describe: Describe, i: nat)
    ensures var r := ParseReply(items, reply, describe);
            && (!reply.Answer? ==> r == Err(reply.message))
            && (reply.Answer? && FirstWithoutText(items, reply.fields, i) ==>
                  r == Err("missing translation for " + items[i].key))
            && (reply.Answer? && r.Err? && (forall j :: 0 <= j < |items| ==> Usable(reply.fields, items[j].key)) ==>
                  exists translated :: HoldsFieldsOf(translated, items, reply.fields)
                    && r == Err(describe(items, translated)))
  {
    hide Trim, Extract, Texts, Picked, Matching, HoldsFieldsOf;
    if reply.Answer? && FirstWithoutText(items, reply.fields, i) {
      FirstUnusableIs(items, reply.fields, i);
    }
    if reply.Answer? && forall j :: 0 <= j < |items| ==> Usable(reply.fields, items[j].key) {
      PickedIs(items, reply.fields);
      assert HoldsFieldsOf(Picked(items, reply.fields), items, reply.fields);
    }
  }

  const TIMED_OUT := "timed out"

  /** A timeout is recognised by these words anywhere in the message, in capital letters or not. */
  predicate SaysTimedOut(message: string, at: nat) {
    at + |TIMED_OUT| <= |message|
    && forall k :: 0 <= k < |TIMED_OUT| ==>
         message[at + k] == TIMED_OUT[k] || (TIMED_OUT[k] != ' ' && message[at + k] == TIMED_OUT[k] - 'a' + 'A')
  }

  lemma {:induction false} TimeoutIs(message: string)
    ensures IsTimeout(message) <==> exists i :: SaysTimedOut(message, i)
  {
    var lower := LowerCase(message);
    forall i: nat
      ensures SaysTimedOut(message, i) <==> i <= |lower| && TIMED_OUT <= lower[i..]
    {
      SaysTimedOutAt(message, i);
    }
  }

  lemma {:induction false} SaysTimedOutAt(message: string, i: nat)
    ensures SaysTimedOut(message, i) <==> i <= |message| && TIMED_OUT <= LowerCase(message)[i..]
  {
    var lower := LowerCase(message);
    forall c: char, k | 0 <= k < |TIMED_OUT|
      ensures Lower(c) == TIMED_OUT[k]
              <==> c == TIMED_OUT[k] || (TIMED_OUT[k] != ' ' && c == TIMED_OUT[k] - 'a' + 'A')
    {
    }
    if i + |TIMED_OUT| <= |message| {
      assert forall k :: 0 <= k < |TIMED_OUT| ==> lower[i..][k] == Lower(message[i + k]);
      if TIMED_OUT <= lower[i..] {
        assert forall k :: 0 <= k < |TIMED_OUT| ==> lower[i..][k] == TIMED_OUT[k];
      }
    }
  }

  // ---------------------------------------------------------------------------------------
  // When a batch is translated

  /** A way for a batch to succeed: after some refused replies an answer is accepted, or a prompt times
      out and both halves succeed. */
  datatype Course = Answered(refusals: nat) | Halved(refusals: nat, left: Course, right: Course)

  function Prompts(c: Course): nat {
    c.refusals + 1 + if c.Halved? then Prompts(c.left) + Prompts(c.right) else 0
  }

  predicate Refuses(items: seq<Item>, reply: Reply, describe: Describe) {
    var r := ParseReply(items, reply, describe);
    r.Err? && !IsTimeout(r.error)
  }

  predicate TimesOut(items: seq<Item>, reply: Reply, describe: Describe) {
    var r := ParseReply(items, reply, describe);
    r.Err? && IsTimeout(r.error)
  }

  predicate RefusesUpTo(items: seq<Item>, replies: nat -> Reply, describe: Describe, start: nat, next: nat) {
    forall k :: start <= k < next ==> Refuses(items, replies(k), describe)
  }

  /** The replies from `start` on take this course; a batch is cut in two with the larger half first. */
  predicate Follows(c: Course, items: seq<Item>, replies: nat -> Reply, describe: Describe, start: nat) {
    var next := start + c.refusals;
    && c.refusals < 2 && RefusesUpTo(items, replies, describe, start, next)
    && match c
       case Answered(_) => ParseReply(items, replies(next), describe).Ok?
       case Halved(_, left, right) =>
         && |items| > 1 && TimesOut(items, replies(next), describe)
         && var half := (|items| + 1) / 2;
            && Follows(left, items[..half], replies, describe, next + 1)
            && Follows(right, items[half..], replies, describe, next + 1 + Prompts(left))
  }

  /** What a course translates: the accepted answers, the right half over the left. */
  function Translated(c: Course, items: seq<Item>, replies: nat -> Reply, describe: Describe, start: nat)
    : map<string, string>
  {
    var next := start + c.refusals;
    match c
    case Answered(_) =>
      var parsed := ParseReply(items, replies(next), describe);
      if parsed.Ok? then parsed.value else map[]
    case Halved(_, left, right) =>
      var half := (|items| + 1) / 2;
      Translated(left, items[..half], replies, describe, next + 1)
      + Translated(right, items[half..], replies, describe, next + 1 + Prompts(left))
  }

  /** A refused reply is followed by another attempt, as long as there is one. */
  lemma {:induction false} AfterRefusals(items: seq<Item>, replies: nat -> Reply, describe: Describe, start: nat,
                                         n: nat)
    requires n < 2 && RefusesUpTo(items, replies, describe, start, start + n)
    ensures Attempts(items, replies, describe, start, 0) == Attempts(items, replies, describe, start + n, n)
  {
    hide ParseReply, IsTimeout;
    if n == 1 {
      assert Refuses(items, replies(start), describe);
    }
  }

  /** One attempt that is accepted, or times out and can be cut in two. */
  lemma {:induction false} OneAttempt(items: seq<Item>, replies: nat -> Reply, describe: Describe, used: nat,
                                      attempt: nat)
    requires attempt < 2
    ensures var reply, r := replies(used), Attempts(items, replies, describe, used, attempt);
            var parsed := ParseReply(items, reply, describe);
            && (parsed.Ok? ==> r == Run(parsed, used + 1))
            && (TimesOut(items, reply, describe) ==>
                  r == if |items| > 1 then Split(items, replies, describe, used + 1) else Run(parsed, used + 1))
            && (Refuses(items, reply, describe) && attempt == 1 ==> r == Run(parsed, used + 1))
  {
    hide ParseReply, IsTimeout;
  }

  lemma {:induction false} SplitIs(items: seq<Item>, replies: nat -> Reply, describe: Describe, used: nat)
    requires |items| > 1
    ensures var half := (|items| + 1) / 2;
            var left := Attempts(items[..half], replies, describe, used, 0);
            var right := Attempts(items[half..], replies, describe, left.used, 0);
            Split(items, replies, describe, used)
            == if left.result.Err? then left
               else if right.result.Err? then right
               else Run(Ok(left.result.value + right.result.value), right.used)
  {
    hide Attempts;
  }

  /** The halves of a course through a timeout. */
  lemma {:induction false} HalvesFollow(c: Course, items: seq<Item>, replies: nat -> Reply, describe: Describe,
                                        start: nat)
    requires c.Halved?
    ensures var next, half := start + c.refusals, (|items| + 1) / 2;
            Follows(c, items, replies, describe, start) <==>
              && c.refusals < 2 && RefusesUpTo(items, replies, describe, start, next)
              && |items| > 1 && TimesOut(items, replies(next), describe)
              && Follows(c.left, items[..half], replies, describe, next + 1)
              && Follows(c.right, items[half..], replies, describe, next + 1 + Prompts(c.left))
  {
    hide ParseReply, IsTimeout, RefusesUpTo, TimesOut;
  }

  lemma {:induction false} TranslatedHalves(c: Course, items: seq<Item>, replies: nat -> Reply, describe: Describe,
                                            start: nat)
    requires c.Halved?
    ensures var next, half := start + c.refusals, (|items| + 1) / 2;
            Translated(c, items, replies, describe, start)
            == Translated(c.left, items[..half], replies, describe, next + 1)
               + Translated(c.right, items[half..], replies, describe, next + 1 + Prompts(c.left))
    ensures Prompts(c) == c.refusals + 1 + Prompts(c.left) + Prompts(c.right)
  {
    hide ParseReply;
  }

  lemma {:induction false} AnsweredIsRun(c: Course, items: seq<Item>, replies: nat -> Reply, describe: Describe,
                                         start: nat)
    requires c.Answered? && Follows(c, items, replies, describe, start)
    ensures Attempts(items, replies, describe, start, 0)
            == Run(Ok(Translated(c, items, replies, describe, start)), start + Prompts(c))
  {
    hide ParseReply, IsTimeout, Attempts, Split, RefusesUpTo, TimesOut;
    AfterRefusals(items, replies, describe, start, c.refusals);
    OneAttempt(items, replies, describe, start + c.refusals, c.refusals);
  }

  /** A batch whose replies take a course is translated accordingly, with as many prompts. */
  lemma {:induction false} CourseIsRun(c: Course, items: seq<Item>, replies: nat -> Reply, describe: Describe,
                                       start: nat)
    requires Follows(c, items, replies, describe, start)
    ensures Attempts(items, replies, describe, start, 0)
            == Run(Ok(Translated(c, items, replies, describe, start)), start + Prompts(c))
  {
    hide ParseReply, IsTimeout, Attempts, Split, RefusesUpTo, TimesOut, Follows, Translated, Prompts;
    if c.Answered? {
      AnsweredIsRun(c, items, replies, describe, start);
    } else {
      var half, next := (|items| + 1) / 2, start + c.refusals;
      HalvesFollow(c, items, replies, describe, start);
      TranslatedHalves(c, items, replies, describe, start);
      CourseIsRun(c.left, items[..half], replies, describe, next + 1);
      CourseIsRun(c.right, items[half..], replies, describe, next + 1 + Prompts(c.left));
      AfterRefusals(items, replies, describe, start, c.refusals);
      OneAttempt(items, replies, describe, next, c.refusals);
      SplitIs(items, replies, describe, next + 1);
    }
  }

  /** A batch that is translated took a course. */
  lemma {:induction false} RunHasCourse(items: seq<Item>, replies: nat -> Reply, describe: Describe, start: nat)
    returns (c: Course)
    requires Attempts(items, replies, describe, start, 0).result.Ok?
    ensures Follows(c, items, replies, describe, start)
  {
    hide ParseReply, IsTimeout, Attempts, Split;
    var refusals := if Refuses(items, replies(start), describe) then 1 else 0;
    assert RefusesUpTo(items, replies, describe, start, start + refusals);
    AfterRefusals(items, replies, describe, start, refusals);
    var next := start + refusals;
    OneAttempt(items, replies, describe, next, refusals);
    if ParseReply(items, replies(next), describe).Ok? {
      c := Answered(refusals);
    } else {
      hide Follows, RefusesUpTo, Translated;
      assert TimesOut(items, replies(next), describe) && |items| > 1;
      hide Refuses, TimesOut;
      var half := (|items| + 1) / 2;
      SplitIs(items, replies, describe, next + 1);
      var left := RunHasCourse(items[..half], replies, describe, next + 1);
      CourseIsRun(left, items[..half], replies, describe, next + 1);
      var right := RunHasCourse(items[half..], replies, describe, next + 1 + Prompts(left));
      c := Halved(refusals, left, right);
      HalvesFollow(c, items, replies, describe, start);
    }
  }

  /** Exactly when the replies take a course is the batch translated. */
  lemma {:induction false} TranslatedExactly(items: seq<Item>, replies: nat -> Reply, describe: Describe, start: nat)
    ensures Attempts(items, replies, describe, start, 0).result.Ok?
            <==> exists c :: Follows(c, items, replies, describe, start)
  {
    if Attempts(items, replies, describe, start, 0).result.Ok? {
      var c := RunHasCourse(items, replies, describe, start);
    }
    if c :| Follows(c, items, replies, describe, start) {
      CourseIsRun(c, items, replies, describe, start);
    }
  }

  /** The last reply of a failed batch: for some part of it, either a timeout and the part cannot be cut,
      or the second refusal in a row. */
  predicate Fails(part: seq<Item>, replies: nat -> Reply, describe: Describe, last: nat, message: string) {
    && ParseReply(part, replies(last), describe) == Err(message)
    && if IsTimeout(message) then |part| <= 1
       else last > 0 && Refuses(part, replies(last - 1), describe)
  }

  ghost predicate SomePartFails(items: seq<Item>, replies: nat -> Reply, describe: Describe, last: nat,
                                message: string) {
    exists from, to :: 0 <= from <= to <= |items| && (from < to || items == [])
                       && Fails(items[from..to], replies, describe, last, message)
  }

  lemma {:induction false} PartOfHalf(items: seq<Item>, from: nat, to: nat, replies: nat -> Reply, describe: Describe,
                                      last: nat, message: string)
    requires from < to <= |items| && SomePartFails(items[from..to], replies, describe, last, message)
    ensures SomePartFails(items, replies, describe, last, message)
  {
    hide Fails;
    var half := items[from..to];
    var a, b :| 0 <= a <= b <= |half| && a < b && Fails(half[a..b], replies, describe, last, message);
    PartOfPart(items, from, to, a, b);
  }

  /** A batch fails only because the last prompt sent, for some part of it, timed out and the part cannot be
      cut in two, or was refused and so was the one before; and with the error of that prompt. */
  lemma {:induction false} FailureHasCause(items: seq<Item>, replies: nat -> Reply, describe: Describe, start: nat)
    requires Attempts(items, replies, describe, start, 0).result.Err?
    ensures var r := Attempts(items, replies, describe, start, 0);
            r.used > start && SomePartFails(items, replies, describe, r.used - 1, r.result.error)
  {
    hide ParseReply, IsTimeout, SomePartFails;
    var refusals := if Refuses(items, replies(start), describe) then 1 else 0;
    AfterRefusals(items, replies, describe, start, refusals);
    var next := start + refusals;
    var r := Attempts(items, replies, describe, start, 0);
    if TimesOut(items, replies(next), describe) && |items| > 1 {
      var half := (|items| + 1) / 2;
      assert items[..half] == items[0..half] && items[half..] == items[half..|items|];
      var left := Attempts(items[..half], replies, describe, next + 1, 0);
      if left.result.Err? {
        FailureHasCause(items[..half], replies, describe, next + 1);
        PartOfHalf(items, 0, half, replies, describe, r.used - 1, r.result.error);
      } else {
        PromptBound(items[..half], replies, describe, next + 1, 0);
        FailureHasCause(items[half..], replies, describe, left.used);
        PartOfHalf(items, half, |items|, replies, describe, r.used - 1, r.result.error);
      }
    } else {
      WholeFails(items, replies, describe, next, r.result.error);
    }
  }

  lemma {:induction false} WholeFails(items: seq<Item>, replies: nat -> Reply, describe: Describe, last: nat,
                                      message: string)
    requires Fails(items, replies, describe, last, message)
    ensures SomePartFails(items, replies, describe, last, message)
  {
    assert items[0..|items|] == items;
  }
}
