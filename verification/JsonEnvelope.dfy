/**
 Finding the end of the JSON envelope at the start of a program's output
 (scripts/code-mode-model-matrix.ts), against the grammar of RFC 8259.
*/
module JsonEnvelope {
  import opened Wrappers
  import opened Text
  import opened BraceScanner

  // ---------------------------------------------------------------------------------------
  // The scanner

  function In(depth: nat, inString: bool, escaped: bool): Mode {
    Mode(DoubleQuotes, depth, if inString then Some('"') else None, escaped)
  }

  const START := In(0, false, false)

  datatype EnvelopeError = NoEnvelope | NotAnEnvelope | InvalidJson | Incomplete

  datatype Parsed<E> = Parsed(envelope: E, trailing: string)

  /** `parse` stands for `JSON.parse`. */
  function ParseOutput<E>(stdout: string, parse: string -> Option<E>): Result<Parsed<E>, EnvelopeError> {
    var value := TrimStart(stdout);
    if value == [] then Err(NoEnvelope)
    else if value[0] != '{' then Err(NotAnEnvelope)
    else
      match Closing(value, START)
      case None => Err(Incomplete)
      case Some(end) =>
        match parse(value[..end + 1])
        case None => Err(InvalidJson)
        case Some(envelope) => Ok(Parsed(envelope, Trim(value[end + 1..])))
  }

  method ParseAgentExecOutput<E>(stdout: string, parse: string -> Option<E>)
    returns (r: Result<Parsed<E>, EnvelopeError>)
    ensures r == ParseOutput(stdout, parse)
  {
    hide TrimStart, Trim, Closing;
    var value := TrimStart(stdout);
    if value == [] {
      return Err(NoEnvelope);
    }
    if value[0] != '{' {
      return Err(NotAnEnvelope);
    }
    NothingCloses(value, START);
    var depth: nat := 0;
    var escaped := false;
    var inString := false;
    for index := 0 to |value|
      invariant if index == 0 then depth == 0 && !inString else depth > 0
      invariant escaped ==> inString
      invariant Closing(value, START) == Shift(index, Closing(value[index..], In(depth, inString, escaped)))
    {
      var character := value[index];
      ghost var before := In(depth, inString, escaped);
      ClosingStep(value, index, before);
      if inString {
        if escaped {
          escaped := false;
        } else if character == '\\' {
          escaped := true;
        } else if character == '"' {
          inString := false;
        }
        assert In(depth, inString, escaped) == Step(before, character);
        continue;
      }
      if character == '"' {
        inString := true;
      } else if character == '{' {
        depth := depth + 1;
      } else if character == '}' {
        depth := depth - 1;
        if depth == 0 {
          var envelope := parse(value[..index + 1]);
          return if envelope.None? then Err(InvalidJson) else Ok(Parsed(envelope.value, Trim(value[index + 1..])));
        }
      }
      assert In(depth, inString, escaped) == Step(before, character);
    }
    NothingCloses(value, In(depth, inString, escaped));
    return Err(Incomplete);
  }

  // ---------------------------------------------------------------------------------------
  // JSON texts (RFC 8259)

  /** A character of a string (section 7): as it is, after a backslash, or as four hex digits. */
  datatype StringChar = Plain(c: char) | Escaped(c: char) | Unicode(digits: string)

  /** Literal names and numbers (sections 3 and 6), strings, arrays and objects, each with the white
      space (section 2) around its parts. */
  datatype Value =
    | Literal(text: string)
    | String(chars: seq<StringChar>)
    | Array(space: string, elements: Elements)
    | Object(space: string, members: Members)

  datatype Elements = NoElements | Element(before: string, value: Value, after: string, rest: Elements)

  datatype Members = NoMembers
    | Member(before: string, key: seq<StringChar>, afterKey: string, beforeValue: string, value: Value, after: string,
             rest: Members)

  predicate IsWhite(s: string) {
    forall c :: c in s ==> c == ' ' || c == '\t' || c == '\n' || c == '\r'
  }

  /** `true`, `false`, `null`, and at least every number of section 6. */
  predicate IsLiteral(s: string) {
    s == "true" || s == "false" || s == "null"
    || (s != [] && forall c :: c in s ==> '0' <= c <= '9' || c in "+-.eE")
  }

  predicate IsHex(c: char) {
    '0' <= c <= '9' || 'a' <= c <= 'f' || 'A' <= c <= 'F'
  }

  predicate ValidChar(x: StringChar) {
    match x
    case Plain(c) => c >= ' ' && c != '"' && c != '\\'
    case Escaped(c) => c in "\"\\/bfnrt"
    case Unicode(digits) => |digits| == 4 && forall d :: d in digits ==> IsHex(d)
  }

  predicate ValidString(chars: seq<StringChar>) {
    forall x :: x in chars ==> ValidChar(x)
  }

  predicate ValidValue(v: Value) {
    match v
    case Literal(text) => IsLiteral(text)
    case String(chars) => ValidString(chars)
    case Array(space, elements) => IsWhite(space) && ValidElements(elements)
    case Object(space, members) => IsWhite(space) && ValidMembers(members)
  }

  predicate ValidElements(e: Elements) {
    match e
    case NoElements => true
    case Element(before, value, after, rest) =>
      IsWhite(before) && ValidValue(value) && IsWhite(after) && ValidElements(rest)
  }

  predicate ValidMembers(m: Members) {
    match m
    case NoMembers => true
    case Member(before, key, afterKey, beforeValue, value, after, rest) =>
      && IsWhite(before) && ValidString(key) && IsWhite(afterKey) && IsWhite(beforeValue)
      && ValidValue(value) && IsWhite(after) && ValidMembers(rest)
  }

  function PrintChars(chars: seq<StringChar>): string {
    if chars == [] then [] else
      (match chars[0]
       case Plain(c) => [c]
       case Escaped(c) => ['\\', c]
       case Unicode(digits) => "\\u" + digits) + PrintChars(chars[1..])
  }

  function PrintString(chars: seq<StringChar>): string {
    "\"" + (PrintChars(chars) + "\"")
  }

  function PrintValue(v: Value): string {
    match v
    case Literal(text) => text
    case String(chars) => PrintString(chars)
    case Array(space, elements) => "[" + (space + (PrintElements(elements) + "]"))
    case Object(space, members) => "{" + (space + (PrintMembers(members) + "}"))
  }

  function PrintElements(e: Elements): string {
    match e
    case NoElements => []
    case Element(before, value, after, rest) =>
      before + (PrintValue(value) + (after + (if rest.NoElements? then [] else "," + PrintElements(rest))))
  }

  function PrintMembers(m: Members): string {
    match m
    case NoMembers => []
    case Member(before, key, afterKey, beforeValue, value, after, rest) =>
      before + (PrintString(key) + (afterKey + (":" + (beforeValue + (PrintValue(value) + (after
      + (if rest.NoMembers? then [] else "," + PrintMembers(rest))))))))
  }

  // ---------------------------------------------------------------------------------------
  // Scanning a printed value

  predicate IsNeutral(c: char) {
    c != '"' && c != '{' && c != '}'
  }

  lemma {:induction false} NeutralSkips(s: string, m: Mode)
    requires m.depth > 0 && m == In(m.depth, false, false) && forall c :: c in s ==> IsNeutral(c)
    ensures Skips(s, m, m)
  {
    if s != [] {
      assert s[0] in s && forall c :: c in s[1..] ==> c in s;
      NeutralSkips(s[1..], m);
    }
  }

  lemma {:induction false} InnerSkips(s: string, m: Mode)
    requires m.depth > 0 && m == In(m.depth, true, false) && forall c :: c in s ==> c != '"' && c != '\\'
    ensures Skips(s, m, m)
  {
    if s != [] {
      assert s[0] in s && forall c :: c in s[1..] ==> c in s;
      InnerSkips(s[1..], m);
    }
  }

  lemma {:induction false} CharSkips(x: StringChar, m: Mode)
    requires m.depth > 0 && m == In(m.depth, true, false) && ValidChar(x)
    ensures Skips(PrintChars([x]), m, m)
  {
    assert PrintChars([x][1..]) == [];
    var shown := PrintChars([x]);
    match x {
      case Plain(c) =>
        assert shown == [c];
        InnerSkips([c], m);
      case Escaped(c) =>
        assert shown == ['\\'] + [c];
        SkipsOne('\\', m);
        SkipsOne(c, m.(escaped := true));
        SkipsConcat(['\\'], [c], m, m.(escaped := true), m);
      case Unicode(digits) =>
        assert shown == ['\\'] + (['u'] + digits);
        SkipsOne('\\', m);
        SkipsOne('u', m.(escaped := true));
        assert forall d :: d in digits ==> IsHex(d);
        InnerSkips(digits, m);
        SkipsConcat(['u'], digits, m.(escaped := true), m, m);
        SkipsConcat(['\\'], ['u'] + digits, m, m.(escaped := true), m);
    }
  }

  lemma {:induction false} FirstChar(chars: seq<StringChar>)
    requires chars != []
    ensures PrintChars(chars) == PrintChars([chars[0]]) + PrintChars(chars[1..])
  {
    assert PrintChars([chars[0]][1..]) == [];
  }

  lemma {:induction false} CharsSkip(chars: seq<StringChar>, m: Mode)
    requires m.depth > 0 && m == In(m.depth, true, false) && ValidString(chars)
    ensures Skips(PrintChars(chars), m, m)
  {
    if chars != [] {
      assert chars[0] in chars && forall x :: x in chars[1..] ==> x in chars;
      hide Skips, PrintChars, ValidChar;
      CharSkips(chars[0], m);
      CharsSkip(chars[1..], m);
      FirstChar(chars);
      SkipsConcat(PrintChars([chars[0]]), PrintChars(chars[1..]), m, m, m);
    }
  }

  lemma {:induction false} StringSkips(chars: seq<StringChar>, m: Mode)
    requires m.depth > 0 && m == In(m.depth, false, false) && ValidString(chars)
    ensures Skips(PrintString(chars), m, m)
  {
    var inside := In(m.depth, true, false);
    CharsSkip(chars, inside);
    SkipsOne('"', m);
    SkipsOne('"', inside);
    hide Skips, PrintChars;
    SkipsConcat(PrintChars(chars), "\"", inside, inside, m);
    SkipsConcat("\"", PrintChars(chars) + "\"", m, inside, m);
  }

  lemma {:induction false} ValueSkips(v: Value, depth: nat)
    requires depth > 0 && ValidValue(v)
    ensures Skips(PrintValue(v), In(depth, false, false), In(depth, false, false))
    decreases v
  {
    hide Skips, PrintElements, PrintMembers, PrintChars;
    var m := In(depth, false, false);
    match v {
      case Literal(text) =>
        NeutralSkips(text, m);
      case String(chars) =>
        StringSkips(chars, m);
      case Array(space, elements) =>
        NeutralSkips(space, m);
        ElementsSkip(elements, depth);
        NeutralSkips("[", m);
        NeutralSkips("]", m);
        SkipsConcat(PrintElements(elements), "]", m, m, m);
        SkipsConcat(space, PrintElements(elements) + "]", m, m, m);
        SkipsConcat("[", space + (PrintElements(elements) + "]"), m, m, m);
      case Object(space, members) =>
        var deeper := In(depth + 1, false, false);
        NeutralSkips(space, deeper);
        MembersSkip(members, depth + 1);
        SkipsOne('{', m);
        SkipsOne('}', deeper);
        SkipsConcat(PrintMembers(members), "}", deeper, deeper, m);
        SkipsConcat(space, PrintMembers(members) + "}", deeper, deeper, m);
        SkipsConcat("{", space + (PrintMembers(members) + "}"), m, deeper, m);
    }
  }

  lemma {:induction false} ElementsSkip(e: Elements, depth: nat)
    requires depth > 0 && ValidElements(e)
    ensures Skips(PrintElements(e), In(depth, false, false), In(depth, false, false))
    decreases e
  {
    hide Skips, PrintValue;
    var m := In(depth, false, false);
    match e {
      case NoElements =>
        SkipsNothing(m);
      case Element(before, value, after, rest) =>
        NeutralSkips(before, m);
        ValueSkips(value, depth);
        NeutralSkips(after, m);
        var last := if rest.NoElements? then [] else "," + PrintElements(rest);
        SkipsNothing(m);
        NeutralSkips(",", m);
        ElementsSkip(rest, depth);
        SkipsConcat(",", PrintElements(rest), m, m, m);
        SkipsConcat(after, last, m, m, m);
        SkipsConcat(PrintValue(value), after + last, m, m, m);
        SkipsConcat(before, PrintValue(value) + (after + last), m, m, m);
    }
  }

  lemma {:induction false} MembersSkip(ms: Members, depth: nat)
    requires depth > 0 && ValidMembers(ms)
    ensures Skips(PrintMembers(ms), In(depth, false, false), In(depth, false, false))
    decreases ms
  {
    hide Skips, PrintValue, PrintString;
    var m := In(depth, false, false);
    match ms {
      case NoMembers =>
        SkipsNothing(m);
      case Member(before, key, afterKey, beforeValue, value, after, rest) =>
        NeutralSkips(before, m);
        StringSkips(key, m);
        NeutralSkips(afterKey, m);
        NeutralSkips(":", m);
        NeutralSkips(beforeValue, m);
        ValueSkips(value, depth);
        NeutralSkips(after, m);
        var last := if rest.NoMembers? then [] else "," + PrintMembers(rest);
        SkipsNothing(m);
        NeutralSkips(",", m);
        MembersSkip(rest, depth);
        SkipsConcat(",", PrintMembers(rest), m, m, m);
        SkipsConcat(after, last, m, m, m);
        var t1 := after + last;
        SkipsConcat(PrintValue(value), t1, m, m, m);
        var t2 := PrintValue(value) + t1;
        SkipsConcat(beforeValue, t2, m, m, m);
        var t3 := beforeValue + t2;
        SkipsConcat(":", t3, m, m, m);
        SkipsConcat(afterKey, ":" + t3, m, m, m);
        var t4 := afterKey + (":" + t3);
        SkipsConcat(PrintString(key), t4, m, m, m);
        SkipsConcat(before, PrintString(key) + t4, m, m, m);
    }
  }

  /** The scanner stops at the closing brace of the object and nowhere before. */
  lemma {:induction false} ObjectCloses(v: Value, rest: string)
    requires ValidValue(v) && v.Object?
    ensures Closing(PrintValue(v) + rest, START) == Some(|PrintValue(v)| - 1)
  {
    hide Skips, PrintMembers, Closing;
    var inside := In(1, false, false);
    var members := PrintMembers(v.members);
    var head := "{" + (v.space + members);
    NeutralSkips(v.space, inside);
    MembersSkip(v.members, 1);
    SkipsConcat(v.space, members, inside, inside, inside);
    SkipsOne('{', START);
    SkipsConcat("{", v.space + members, START, inside, inside);
    ClosingAfterSkip(head, "}" + rest, START, inside);
    LastBrace(rest);
    ObjectText("{", v.space, members, "}", rest);
  }

  lemma {:induction false} LastBrace(rest: string)
    ensures Closing("}" + rest, In(1, false, false)) == Some(0)
  {
  }

  lemma {:induction false} ObjectText(a: string, b: string, c: string, d: string, e: string)
    ensures a + (b + (c + d)) + e == (a + (b + c)) + (d + e)
  {
  }

  /** For every JSON object, with white space before it and any text after it: what is parsed is the
      whole object and nothing else, and what remains is the text after it, trimmed. */
  lemma {:induction false} EnvelopeIsFound<E>(spaces: string, v: Value, trailing: string, parse: string -> Option<E>)
    requires AllSpaces(spaces) && ValidValue(v) && v.Object?
    ensures ParseOutput(spaces + (PrintValue(v) + trailing), parse)
            == (match parse(PrintValue(v))
                case None => Err(InvalidJson)
                case Some(envelope) => Ok(Parsed(envelope, Trim(trailing))))
  {
    var value := PrintValue(v) + trailing;
    var n := |PrintValue(v)|;
    assert value[0] == '{';
    TrimStartSpaced(spaces, value);
    ObjectCloses(v, trailing);
    assert value[..n] == PrintValue(v) && value[n..] == trailing;
  }

  /** A cut-off envelope is reported as incomplete, wherever it was cut after the first brace. */
  lemma {:induction false} CutEnvelopeIsIncomplete<E>(v: Value, n: nat, parse: string -> Option<E>)
    requires ValidValue(v) && v.Object? && 0 < n < |PrintValue(v)|
    ensures ParseOutput(PrintValue(v)[..n], parse) == Err(Incomplete)
  {
    var t := PrintValue(v);
    assert t[..n][0] == '{';
    hide PrintValue, ValidValue, Closing;
    ObjectCloses(v, []);
    assert t + [] == t;
    ClosingOfPrefix(t, n, START);
    assert TrimStart(t[..n]) == t[..n];
  }

  /** Output that is blank has no envelope, and one that starts with another character than a brace is none. */
  lemma {:induction false} OtherOutputIsRefused<E>(spaces: string, c: char, rest: string, parse: string -> Option<E>)
    requires AllSpaces(spaces)
    ensures ParseOutput(spaces, parse) == Err(NoEnvelope)
    ensures !IsSpace(c) && c != '{' ==> ParseOutput(spaces + ([c] + rest), parse) == Err(NotAnEnvelope)
  {
    hide Closing;
    TrimStartSpaced(spaces, []);
    assert spaces + [] == spaces;
    if !IsSpace(c) {
      TrimStartSpaced(spaces, [c] + rest);
    }
  }
}
