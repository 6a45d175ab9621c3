/**
 The interpolation scanner of scripts/android-app-i18n.ts.

 The scanner is modelled twice: as the loop the program runs, and as the grammar it is meant
 to recognise (a template is text, `$name` tokens and `${expression}` tokens whose braces and
 quotes balance).  The theorems say that the two agree on every string.
*/
module KotlinTemplate {
  import opened Wrappers
  import opened BraceScanner

  predicate IsNameStart(c: char) {
    'A' <= c <= 'Z' || 'a' <= c <= 'z' || c == '_'
  }

  predicate IsNamePart(c: char) {
    IsNameStart(c) || '0' <= c <= '9'
  }

  datatype Interpolation = Interpolation(start: nat, end: nat, value: string)

  // ---------------------------------------------------------------------------------------
  // The scanner as recursive functions on the remaining text

  /** Inside `${`, where both kinds of quotes count. */
  function In(depth: nat, quote: Option<char>, escaped: bool): Mode {
    Mode(BothQuotes, depth, quote, escaped)
  }

  const OPENED := In(1, None, false)

  /** The length of the longest prefix of name characters. */
  function NameLength(t: string): (n: nat)
    ensures n <= |t|
    ensures forall i :: 0 <= i < n ==> IsNamePart(t[i])
    ensures n < |t| ==> !IsNamePart(t[n])
  {
    if t == [] || !IsNamePart(t[0]) then 0 else 1 + NameLength(t[1..])
  }

  datatype Look = NoToken | Unclosed | Token(end: nat)

  /** What starts at `index`: no token, a `${` that is never closed, or a token ending at `end`. */
  function LookAt(source: string, index: nat): (l: Look)
    requires index < |source|
    ensures l.Token? ==> index < l.end <= |source|
  {
    if source[index] != '$' || index + 1 == |source| then NoToken
    else if source[index + 1] == '{' then
      var close := Closing(source[index + 2..], OPENED);
      if close.None? then Unclosed else Token(index + 3 + close.value)
    else if IsNameStart(source[index + 1]) then
      Token(index + 2 + NameLength(source[index + 2..]))
    else NoToken
  }

  /** The interpolations of `source` that start at `index` or later, or None for an open `${`. */
  function Scan(source: string, index: nat): (r: Option<seq<Interpolation>>)
    requires index <= |source|
    decreases |source| - index
  {
    if index == |source| then Some([]) else
      match LookAt(source, index)
      case NoToken => Scan(source, index + 1)
      case Unclosed => None
      case Token(end) => Prepend(Interpolation(index, end, source[index..end]), Scan(source, end))
  }

  /** Interpolations in order, disjoint, not before `index`, each holding its own text. */
  ghost predicate WellPlaced(source: string, its: seq<Interpolation>, index: nat)
    decreases |its|
  {
    if its == [] then index <= |source| else
      && index <= its[0].start < its[0].end <= |source|
      && its[0].value == source[its[0].start..its[0].end]
      && WellPlaced(source, its[1..], its[0].end)
  }

  lemma {:induction false} ScanIsWellPlaced(source: string, index: nat)
    requires index <= |source| && Scan(source, index).Some?
    ensures WellPlaced(source, Scan(source, index).value, index)
    decreases |source| - index
  {
    if index < |source| {
      match LookAt(source, index) {
        case NoToken =>
          ScanIsWellPlaced(source, index + 1);
          WellPlacedEarlier(source, Scan(source, index + 1).value, index + 1, index);
        case Unclosed =>
        case Token(end) =>
          ScanIsWellPlaced(source, end);
          assert Scan(source, index).value[1..] == Scan(source, end).value;
      }
    }
  }

  lemma {:induction false} WellPlacedEarlier(source: string, its: seq<Interpolation>, index: nat, earlier: nat)
    requires WellPlaced(source, its, index) && earlier <= index
    ensures WellPlaced(source, its, earlier)
  {
  }

  // ---------------------------------------------------------------------------------------
  // The scanner as the program runs it

  /** The loop over the characters of a name. */
  method ReadName(source: string, from: nat) returns (index: nat)
    requires from <= |source|
    ensures from <= index <= |source| && index == from + NameLength(source[from..])
  {
    index := from;
    while index < |source| && IsNamePart(source[index])
      invariant from <= index <= |source|
      invariant NameLength(source[from..]) == index - from + NameLength(source[index..])
    {
      assert source[index..][1..] == source[index + 1..];
      index := index + 1;
    }
  }

  /** The loop over the body of an expression: reads on from just after `${`; ends just after the closing
      brace, or at the end of the text with braces still open. */
  method ReadExpression(source: string, from: nat) returns (index: nat, depth: nat)
    requires from <= |source|
    ensures from <= index <= |source|
    ensures Closing(source[from..], OPENED) == if depth == 0 then Some(index - from - 1) else None
    ensures depth == 0 ==> index > from
  {
    hide Closing;
    depth := 1;
    var quote: Option<char> := None;
    var escaped := false;
    index := from;
    while index < |source|
      invariant from <= index <= |source| && depth >= 1
      invariant Closing(source[from..], OPENED)
                == Shift(index - from, Closing(source[index..], In(depth, quote, escaped)))
    {
      var character := source[index];
      ghost var before := In(depth, quote, escaped);
      ClosingStep(source, index, before);
      if escaped {
        escaped := false;
      } else if quote.Some? && character == '\\' {
        escaped := true;
      } else if quote == Some(character) {
        quote := None;
      } else if quote.None? && Opens(BothQuotes, character) {
        quote := Some(character);
      } else if quote.None? && character == '{' {
        depth := depth + 1;
      } else if quote.None? && character == '}' {
        depth := depth - 1;
      }
      assert In(depth, quote, escaped) == Step(before, character);
      index := index + 1;
      if depth == 0 {
        return;
      }
    }
    NothingCloses(source, In(depth, quote, escaped));
  }

  method ReadKotlinInterpolations(source: string) returns (r: Option<seq<Interpolation>>)
    ensures r == Scan(source, 0)
  {
    hide Scan, Closing, NameLength;
    var interpolations: seq<Interpolation> := [];
    var index := 0;
    AppendNothing(Scan(source, 0));
    while index < |source|
      invariant 0 <= index <= |source|
      invariant Scan(source, 0) == Append(interpolations, Scan(source, index))
    {
      ScanStep(source, index, interpolations);
      if source[index] != '$' {
        index := index + 1;
        continue;
      }
      var next := if index + 1 < |source| then Some(source[index + 1]) else None;
      if next != Some('{') && !(next.Some? && IsNameStart(next.value)) {
        index := index + 1;
        continue;
      }
      var start := index;
      if next != Some('{') {
        index := ReadName(source, index + 2);
        interpolations := interpolations + [Interpolation(start, index, source[start..index])];
        continue;
      }
      var depth;
      index, depth := ReadExpression(source, index + 2);
      if depth != 0 {
        return None;
      }
      interpolations := interpolations + [Interpolation(start, index, source[start..index])];
    }
    ScanEnd(source, interpolations);
    return Some(interpolations);
  }

  /** One round of the loop: what has been found before `index` and what is found from there on. */
  lemma {:induction false} ScanStep(source: string, index: nat, found: seq<Interpolation>)
    requires index < |source|
    ensures Append(found, Scan(source, index)) ==
              match LookAt(source, index)
              case NoToken => Append(found, Scan(source, index + 1))
              case Unclosed => None
              case Token(end) => Append(found + [Interpolation(index, end, source[index..end])], Scan(source, end))
  {
    hide LookAt;
    if LookAt(source, index).Token? {
      var end := LookAt(source, index).end;
      AppendStep(found, Interpolation(index, end, source[index..end]), Scan(source, end));
    }
  }

  lemma {:induction false} ScanEnd(source: string, found: seq<Interpolation>)
    ensures Append(found, Scan(source, |source|)) == Some(found)
  {
    assert found + [] == found;
  }

  lemma {:induction false} AppendNothing<T>(r: Option<seq<T>>)
    ensures Append([], r) == r
  {
    if r.Some? {
      assert [] + r.value == r.value;
    }
  }

  ghost function Append<T>(xs: seq<T>, r: Option<seq<T>>): Option<seq<T>> {
    if r.Some? then Some(xs + r.value) else None
  }

  lemma {:induction false} AppendStep<T>(xs: seq<T>, x: T, r: Option<seq<T>>)
    ensures Append(xs, Prepend(x, r)) == Append(xs + [x], r)
  {
    if r.Some? {
      assert xs + ([x] + r.value) == (xs + [x]) + r.value;
    }
  }

  // ---------------------------------------------------------------------------------------
  // The grammar of templates

  /** One character between quotes; an escaped character is preceded by a backslash. */
  datatype QuotedChar = Raw(c: char) | Escaped(c: char)

  /** The text between the braces of `${...}`. */
  datatype Body =
    | End
    | Plain(c: char, rest: Body)
    | Quoted(quote: char, chars: seq<QuotedChar>, rest: Body)
    | Block(inner: Body, rest: Body)

  datatype Piece = Text(c: char) | Name(id: string) | Expr(body: Body)

  datatype Template = Nil | Cons(piece: Piece, rest: Template)

  function PrintChars(chars: seq<QuotedChar>): string {
    if chars == [] then []
    else (match chars[0] case Raw(c) => [c] case Escaped(c) => ['\\', c]) + PrintChars(chars[1..])
  }

  function PrintBody(b: Body): string {
    match b
    case End => []
    case Plain(c, rest) => [c] + PrintBody(rest)
    case Quoted(q, chars, rest) => [q] + (PrintChars(chars) + ([q] + PrintBody(rest)))
    case Block(inner, rest) => ['{'] + (PrintBody(inner) + (['}'] + PrintBody(rest)))
  }

  function PrintPiece(p: Piece): (s: string)
    ensures s != []
  {
    match p
    case Text(c) => [c]
    case Name(id) => ['$'] + id
    case Expr(body) => ['$', '{'] + (PrintBody(body) + ['}'])
  }

  function Print(t: Template): string {
    match t
    case Nil => []
    case Cons(p, rest) => PrintPiece(p) + Print(rest)
  }

  predicate ValidChars(chars: seq<QuotedChar>, quote: char) {
    forall i :: 0 <= i < |chars| && chars[i].Raw? ==> chars[i].c != quote && chars[i].c != '\\'
  }

  predicate ValidBody(b: Body) {
    match b
    case End => true
    case Plain(c, rest) => c != '"' && c != '\'' && c != '{' && c != '}' && ValidBody(rest)
    case Quoted(q, chars, rest) => (q == '"' || q == '\'') && ValidChars(chars, q) && ValidBody(rest)
    case Block(inner, rest) => ValidBody(inner) && ValidBody(rest)
  }

  predicate Letter(c: char) {
    c == '_' || 'a' <= c <= 'z' || 'A' <= c <= 'Z'
  }

  predicate Digit(c: char) {
    '0' <= c <= '9'
  }

  /** A name starts with a letter and goes on with letters and digits. */
  predicate ValidName(id: string) {
    id != [] && Letter(id[0]) && forall i :: 0 <= i < |id| ==> Letter(id[i]) || Digit(id[i])
  }

  /** A piece followed by text that neither extends it nor turns a lone `$` into a token. */
  predicate ValidPiece(p: Piece, next: string) {
    match p
    case Text(c) => c == '$' && next != [] ==> next[0] != '{' && !Letter(next[0])
    case Name(id) => ValidName(id) && (next != [] ==> !Letter(next[0]) && !Digit(next[0]))
    case Expr(body) => ValidBody(body)
  }

  predicate ValidTemplate(t: Template) {
    t.Cons? ==> ValidPiece(t.piece, Print(t.rest)) && ValidTemplate(t.rest)
  }

  /** The tokens of a template with the places they are printed at, text pieces skipped. */
  function Tokens(t: Template, at: nat): seq<Interpolation> {
    match t
    case Nil => []
    case Cons(p, rest) =>
      var end := at + |PrintPiece(p)|;
      if p.Text? then Tokens(rest, end) else [Interpolation(at, end, PrintPiece(p))] + Tokens(rest, end)
  }

  // ---------------------------------------------------------------------------------------
  // Every template is read back

  lemma {:induction false} QuotedSkips(chars: seq<QuotedChar>, q: char, depth: nat)
    requires ValidChars(chars, q) && Opens(BothQuotes, q) && depth >= 1
    ensures Skips(PrintChars(chars), In(depth, Some(q), false), In(depth, Some(q), false))
  {
    if chars != [] {
      var m := In(depth, Some(q), false);
      QuotedSkips(chars[1..], q, depth);
      match chars[0] {
        case Raw(c) =>
          SkipsOne(c, m);
          SkipsConcat([c], PrintChars(chars[1..]), m, m, m);
        case Escaped(c) =>
          assert ['\\', c][1..] == [c];
          SkipsOne(c, Step(m, '\\'));
          SkipsConcat(['\\', c], PrintChars(chars[1..]), m, m, m);
      }
    }
  }

  lemma {:induction false} BodySkips(b: Body, depth: nat)
    requires ValidBody(b) && depth >= 1
    ensures Skips(PrintBody(b), In(depth, None, false), In(depth, None, false))
    decreases b
  {
    hide Skips;
    var m := In(depth, None, false);
    match b {
      case End => SkipsNothing(m);
      case Plain(c, rest) =>
        BodySkips(rest, depth);
        SkipsOne(c, m);
        SkipsConcat([c], PrintBody(rest), m, m, m);
      case Quoted(q, chars, rest) =>
        var inQuote := In(depth, Some(q), false);
        BodySkips(rest, depth);
        SkipsOne(q, inQuote);
        SkipsConcat([q], PrintBody(rest), inQuote, m, m);
        QuotedSkips(chars, q, depth);
        SkipsConcat(PrintChars(chars), [q] + PrintBody(rest), inQuote, inQuote, m);
        SkipsOne(q, m);
        SkipsConcat([q], PrintChars(chars) + ([q] + PrintBody(rest)), m, inQuote, m);
      case Block(inner, rest) =>
        var deeper := In(depth + 1, None, false);
        BodySkips(rest, depth);
        SkipsOne('}', deeper);
        SkipsConcat(['}'], PrintBody(rest), deeper, m, m);
        BodySkips(inner, depth + 1);
        SkipsConcat(PrintBody(inner), ['}'] + PrintBody(rest), deeper, deeper, m);
        SkipsOne('{', m);
        SkipsConcat(['{'], PrintBody(inner) + (['}'] + PrintBody(rest)), m, deeper, m);
    }
  }

  lemma {:induction false} BodyCloses(b: Body, rest: string)
    requires ValidBody(b)
    ensures Closing(PrintBody(b) + (['}'] + rest), OPENED) == Some(|PrintBody(b)|)
  {
    BodySkips(b, 1);
    ClosingAfterSkip(PrintBody(b), ['}'] + rest, OPENED, OPENED);
  }

  lemma {:induction false} NameLengthStops(id: string, t: string)
    requires forall i :: 0 <= i < |id| ==> IsNamePart(id[i])
    requires t != [] ==> !IsNamePart(t[0])
    ensures NameLength(id + t) == |id|
  {
    if id == [] {
      assert id + t == t;
    } else {
      assert (id + t)[1..] == id[1..] + t;
      NameLengthStops(id[1..], t);
    }
  }

  /** At `at`, `source` goes on with `shown` and then `rest`. */
  ghost predicate Continues(source: string, at: nat, shown: string, rest: string) {
    at + |shown| <= |source| && source[at..at + |shown|] == shown && source[at + |shown|..] == rest
  }

  lemma {:induction false} SplitHere(source: string, at: nat, shown: string, rest: string)
    requires at <= |source| && source[at..] == shown + rest
    ensures Continues(source, at, shown, rest)
  {
    assert |source| == at + |shown| + |rest|;
    assert source[at..at + |shown|] == source[at..][..|shown|];
    assert source[at + |shown|..] == source[at..][|shown|..];
  }

  lemma {:induction false} TextReadsBack(source: string, at: nat, c: char, rest: string)
    requires Continues(source, at, [c], rest) && ValidPiece(Text(c), rest)
    ensures LookAt(source, at) == NoToken
  {
    assert source[at] == source[at..at + 1][0];
    if rest != [] {
      assert source[at + 1] == rest[0];
    }
  }

  lemma {:induction false} AfterTwo(source: string, at: nat, shown: string, rest: string)
    requires Continues(source, at, shown, rest) && |shown| >= 2
    ensures source[at] == shown[0] && source[at + 1] == shown[1]
    ensures source[at + 2..] == shown[2..] + rest
  {
    var end := at + |shown|;
    assert source[at + 2..] == source[at + 2..end] + source[end..];
    assert source[at..end][2..] == source[at + 2..end];
    assert source[at] == source[at..end][0] && source[at + 1] == source[at..end][1];
  }

  lemma {:induction false} NameReadsBack(source: string, at: nat, id: string, rest: string)
    requires Continues(source, at, ['$'] + id, rest) && ValidPiece(Name(id), rest)
    ensures LookAt(source, at) == Token(at + 1 + |id|)
  {
    AfterTwo(source, at, ['$'] + id, rest);
    NameLengthStops(id[1..], rest);
  }

  lemma {:induction false} ExprReadsBack(source: string, at: nat, body: Body, rest: string)
    requires Continues(source, at, PrintPiece(Expr(body)), rest) && ValidPiece(Expr(body), rest)
    ensures LookAt(source, at) == Token(at + |PrintPiece(Expr(body))|)
  {
    var shown := PrintPiece(Expr(body));
    AfterTwo(source, at, shown, rest);
    BodyCloses(body, rest);
    hide Closing;
    assert shown[2..] + rest == PrintBody(body) + (['}'] + rest);
  }

  /** One piece is read back where it stands. */
  lemma {:induction false} PieceReadsBack(source: string, at: nat, p: Piece, rest: string)
    requires Continues(source, at, PrintPiece(p), rest) && ValidPiece(p, rest)
    ensures LookAt(source, at) == if p.Text? then NoToken else Token(at + |PrintPiece(p)|)
  {
    match p {
      case Text(c) => TextReadsBack(source, at, c, rest);
      case Name(id) => NameReadsBack(source, at, id, rest);
      case Expr(body) => ExprReadsBack(source, at, body, rest);
    }
  }

  /** Round trip, first half: scanning a printed template yields its tokens, each in its place. */
  lemma {:induction false} ScanOfPrint(source: string, at: nat, t: Template)
    requires at <= |source| && source[at..] == Print(t)
    requires ValidTemplate(t)
    ensures Scan(source, at) == Some(Tokens(t, at))
    decreases t
  {
    hide LookAt;
    match t {
      case Nil =>
      case Cons(p, rest) =>
        SplitHere(source, at, PrintPiece(p), Print(rest));
        PieceReadsBack(source, at, p, Print(rest));
        ScanOfPrint(source, at + |PrintPiece(p)|, rest);
    }
  }

  // ---------------------------------------------------------------------------------------
  // Everything the scanner accepts is a template

  function Deepen(m: Mode, n: nat): Mode {
    m.(depth := m.depth + n)
  }

  /** Closing more braces is closing the first ones and then the others in what follows. */
  lemma {:induction false} ClosingInTwoSteps(t: string, m: Mode, outer: nat)
    requires m.quotes == BothQuotes && m.depth >= 1 && outer >= 1
    requires m.escaped ==> m.quote.Some?
    ensures Closing(t, m).None? ==> Closing(t, Deepen(m, outer)).None?
    ensures Closing(t, m).Some? ==>
              var k := Closing(t, m).value;
              Closing(t, Deepen(m, outer)) == Shift(k + 1, Closing(t[k + 1..], In(outer, None, false)))
  {
    hide Step;
    if t != [] {
      var next := Step(m, t[0]);
      StepDeeper(m, t[0], outer);
      if next.depth > 0 {
        ClosingInTwoSteps(t[1..], next, outer);
        if Closing(t[1..], next).Some? {
          var k := Closing(t[1..], next).value;
          assert t[1..][k + 1..] == t[k + 2..];
        }
      }
    }
  }

  lemma {:induction false} StepDeeper(m: Mode, c: char, outer: nat)
    requires m.quotes == BothQuotes && m.depth >= 1 && (m.escaped ==> m.quote.Some?)
    ensures Step(m, c).quotes == BothQuotes
    ensures Step(Deepen(m, outer), c) == Deepen(Step(m, c), outer)
    ensures Step(m, c).escaped ==> Step(m, c).quote.Some?
    ensures Step(m, c).depth == 0 ==> Step(m, c) == In(0, None, false)
  {
  }

  lemma {:induction false} ReadQuoted(t: string, q: char, depth: nat) returns (chars: seq<QuotedChar>, rest: string)
    requires Opens(BothQuotes, q) && depth >= 1
    requires Closing(t, In(depth, Some(q), false)).Some?
    ensures ValidChars(chars, q)
    ensures t == PrintChars(chars) + ([q] + rest)
  {
    if t[0] == q {
      chars, rest := [], t[1..];
    } else {
      var first, used := Raw(t[0]), 1;
      if t[0] == '\\' {
        first, used := Escaped(t[1]), 2;
        assert t[1..][1..] == t[2..];
      }
      var more;
      more, rest := ReadQuoted(t[used..], q, depth);
      chars := [first] + more;
      assert chars[1..] == more;
      assert t == t[..used] + t[used..];
    }
  }

  lemma {:induction false} ReadBody(t: string) returns (b: Body)
    requires Closing(t, OPENED).Some?
    ensures ValidBody(b) && t[Closing(t, OPENED).value] == '}'
    ensures PrintBody(b) == t[..Closing(t, OPENED).value]
    decreases |t|
  {
    var k := Closing(t, OPENED).value;
    if t[0] == '}' {
      b := End;
    } else if t[0] == '{' {
      b := ReadBlock(t);
    } else if Opens(BothQuotes, t[0]) {
      b := ReadQuotedBody(t);
    } else {
      var b1 := ReadBody(t[1..]);
      b := Plain(t[0], b1);
      assert t[..k] == [t[0]] + t[1..][..k - 1];
    }
  }

  lemma {:induction false} ReadBlock(t: string) returns (b: Body)
    requires Closing(t, OPENED).Some? && t[0] == '{'
    ensures ValidBody(b) && t[Closing(t, OPENED).value] == '}'
    ensures PrintBody(b) == t[..Closing(t, OPENED).value]
    decreases |t|, 0
  {
    hide Closing;
    var u := t[1..];
    BlockCloses(t);
    var inner := Closing(u, OPENED).value;
    var after := u[inner + 1..];
    var b0 := ReadBody(u);
    var b1 := ReadBody(after);
    b := Block(b0, b1);
    assert t == ['{'] + u;
    BlockText(u, inner, Closing(after, OPENED).value);
  }

  lemma {:induction false} BlockCloses(t: string)
    requires Closing(t, OPENED).Some? && t[0] == '{'
    ensures var u := t[1..];
            && Closing(u, OPENED).Some?
            && Closing(u[Closing(u, OPENED).value + 1..], OPENED).Some?
            && Closing(t, OPENED).value
               == Closing(u, OPENED).value + 2 + Closing(u[Closing(u, OPENED).value + 1..], OPENED).value
  {
    ClosingInTwoSteps(t[1..], OPENED, 1);
    assert Step(OPENED, '{') == Deepen(OPENED, 1);
  }

  lemma {:induction false} BlockText(u: string, inner: nat, m: nat)
    requires inner + 1 + m < |u| && u[inner] == '}'
    ensures var t, after := ['{'] + u, u[inner + 1..];
            t[..inner + 2 + m] == ['{'] + (u[..inner] + (['}'] + after[..m])) && t[inner + 2 + m] == after[m]
  {
    var after := u[inner + 1..];
    assert u == u[..inner] + (['}'] + after);
    assert (['}'] + after)[..m + 1] == ['}'] + after[..m];
    assert u[..inner + 1 + m] == u[..inner] + (['}'] + after[..m]);
  }

  lemma {:induction false} ReadQuotedBody(t: string) returns (b: Body)
    requires Closing(t, OPENED).Some? && Opens(BothQuotes, t[0])
    ensures ValidBody(b) && t[Closing(t, OPENED).value] == '}'
    ensures PrintBody(b) == t[..Closing(t, OPENED).value]
    decreases |t|, 0
  {
    hide Closing, PrintChars;
    var q := t[0];
    var chars, rest := ReadQuotedPart(t);
    var b1 := ReadBody(rest);
    b := Quoted(q, chars, b1);
    QuotedText(q, PrintChars(chars), rest, Closing(rest, OPENED).value);
  }

  lemma {:induction false} ReadQuotedPart(t: string) returns (chars: seq<QuotedChar>, rest: string)
    requires Closing(t, OPENED).Some? && Opens(BothQuotes, t[0])
    ensures ValidChars(chars, t[0])
    ensures t == [t[0]] + (PrintChars(chars) + [t[0]]) + rest
    ensures Closing(t, OPENED) == Shift(|PrintChars(chars)| + 2, Closing(rest, OPENED))
  {
    var q := t[0];
    assert Closing(t, OPENED) == Shift(1, Closing(t[1..], In(1, Some(q), false)));
    hide Closing;
    chars, rest := ReadQuoted(t[1..], q, 1);
    var quoted := [q] + (PrintChars(chars) + [q]);
    assert t == quoted + rest;
    WholeQuoteSkips(chars, q);
    ClosingAfterSkip(quoted, rest, OPENED, OPENED);
  }

  lemma {:induction false} QuotedText(q: char, chars: string, rest: string, m: nat)
    requires m < |rest|
    ensures var t := [q] + (chars + [q]) + rest;
            t[..|chars| + 2 + m] == [q] + (chars + ([q] + rest[..m])) && t[|chars| + 2 + m] == rest[m]
  {
    var t := [q] + (chars + [q]) + rest;
    assert t[..|chars| + 2 + m] == [q] + (chars + [q]) + rest[..m];
  }

  lemma {:induction false} WholeQuoteSkips(chars: seq<QuotedChar>, q: char)
    requires ValidChars(chars, q) && Opens(BothQuotes, q)
    ensures Skips([q] + (PrintChars(chars) + [q]), OPENED, OPENED)
  {
    hide Skips;
    var inQuote := In(1, Some(q), false);
    QuotedSkips(chars, q, 1);
    SkipsOne(q, inQuote);
    SkipsConcat(PrintChars(chars), [q], inQuote, inQuote, OPENED);
    SkipsOne(q, OPENED);
    SkipsConcat([q], PrintChars(chars) + [q], OPENED, inQuote, OPENED);
  }

  lemma {:induction false} NameOfScan(source: string, index: nat) returns (p: Piece)
    requires index + 1 < |source| && source[index] == '$' && IsNameStart(source[index + 1])
    ensures var end := index + 2 + NameLength(source[index + 2..]);
            PrintPiece(p) == source[index..end] && ValidPiece(p, source[end..])
  {
    var rest := source[index + 2..];
    var end := index + 2 + NameLength(rest);
    var id := source[index + 1..end];
    assert source[index..end] == ['$'] + id;
    assert id == [source[index + 1]] + rest[..NameLength(rest)];
    p := Name(id);
  }

  lemma {:induction false} ExprOfScan(source: string, index: nat) returns (p: Piece)
    requires index + 1 < |source| && source[index] == '$' && source[index + 1] == '{'
    requires Closing(source[index + 2..], OPENED).Some?
    ensures var end := index + 3 + Closing(source[index + 2..], OPENED).value;
            PrintPiece(p) == source[index..end] && ValidPiece(p, source[end..])
  {
    var rest := source[index + 2..];
    var k := Closing(rest, OPENED).value;
    var body := ReadBody(rest);
    p := Expr(body);
    assert rest[..k + 1] == rest[..k] + ['}'];
    assert source[index..index + 3 + k] == ['$', '{'] + rest[..k + 1];
  }

  /** The piece that is found at `index`, ending at `end`. */
  lemma {:induction false} TextOfScan(source: string, index: nat) returns (p: Piece)
    requires index < |source| && LookAt(source, index).NoToken?
    ensures PrintPiece(p) == source[index..index + 1] && ValidPiece(p, source[index + 1..]) && p.Text?
  {
    hide Closing, NameLength;
    p := Text(source[index]);
    assert index + 1 < |source| ==> source[index + 1..][0] == source[index + 1];
  }

  lemma {:induction false} PieceFound(source: string, index: nat) returns (p: Piece, end: nat)
    requires index < |source| && !LookAt(source, index).Unclosed?
    ensures end == if LookAt(source, index).Token? then LookAt(source, index).end else index + 1
    ensures PrintPiece(p) == source[index..end] && ValidPiece(p, source[end..])
  {
    hide Closing, NameLength, PrintBody;
    if LookAt(source, index).NoToken? {
      end := index + 1;
      p := TextOfScan(source, index);
    } else {
      end := LookAt(source, index).end;
      if source[index + 1] == '{' {
        p := ExprOfScan(source, index);
      } else {
        p := NameOfScan(source, index);
      }
    }
  }

  /** Round trip, second half: a scan that succeeds has read a template. */
  lemma {:induction false} TemplateOfScan(source: string, index: nat) returns (t: Template)
    requires index <= |source| && Scan(source, index).Some?
    ensures ValidTemplate(t) && Print(t) == source[index..]
    decreases |source| - index
  {
    if index == |source| {
      t := Nil;
    } else {
      hide LookAt;
      var p, end := PieceFound(source, index);
      var rest := TemplateOfScan(source, end);
      t := Cons(p, rest);
      assert source[index..] == source[index..end] + source[end..];
    }
  }

  /** The scanner accepts exactly the templates, and what it reports does not depend on which
      reading of the text as a template is taken. */
  lemma {:induction false} ScannerAcceptsExactlyTemplates(source: string)
    ensures Scan(source, 0).Some? <==> exists t :: ValidTemplate(t) && Print(t) == source
    ensures forall t :: ValidTemplate(t) && Print(t) == source ==> Scan(source, 0) == Some(Tokens(t, 0))
  {
    assert source[0..] == source;
    if Scan(source, 0).Some? {
      var t := TemplateOfScan(source, 0);
      assert Print(t) == source;
    }
    forall t | ValidTemplate(t) && Print(t) == source
      ensures Scan(source, 0) == Some(Tokens(t, 0))
    {
      ScanOfPrint(source, 0, t);
    }
  }
}
