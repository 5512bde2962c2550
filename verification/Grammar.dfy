// URI templates (crates/ikigai-core/src/grammar.rs): parsing, expanding, and the memoised
// backtracking matcher. Level 1 of RFC 6570 (section 1.2), simple expansion only.
//
// Text is a sequence of characters and a position counts characters.

module Text {
  import opened Wrappers

  predicate OccursAt(s: string, pattern: string, at: nat) {
    at + |pattern| <= |s| && s[at..at + |pattern|] == pattern
  }

  // The leftmost occurrence at or after `from`.
  function FindFrom(s: string, pattern: string, from: nat): (found: Option<nat>)
    requires from <= |s|
    ensures found.Some? ==>
              && from <= found.value && OccursAt(s, pattern, found.value)
              && forall at: nat | from <= at < found.value :: !OccursAt(s, pattern, at)
    ensures found.None? ==> forall at: nat | from <= at :: !OccursAt(s, pattern, at)
    decreases |s| - from
  {
    if OccursAt(s, pattern, from) then Some(from)
    else if from == |s| then None
    else FindFrom(s, pattern, from + 1)
  }

  function DigitChar(n: nat): char
    requires n < 10
  {
    ('0' as int + n) as char
  }

  // A number in decimal.
  function Decimal(n: nat): string {
    (if n < 10 then "" else Decimal(n / 10)) + [DigitChar(n % 10)]
  }

  function FindChar(s: string, c: char): (found: Option<nat>)
    ensures found.Some? ==> found.value < |s| && s[found.value] == c && c !in s[..found.value]
    ensures found.None? ==> c !in s
  {
    if s == "" then None
    else if s[0] == c then Some(0)
    else
      match FindChar(s[1..], c)
      case None => None
      case Some(i) =>
        assert s[..i + 1] == [s[0]] + s[1..][..i];
        Some(i + 1)
  }

  // The leftmost occurrence is the only one with none before it.
  lemma {:induction false} FindCharIs(s: string, c: char, i: nat)
    requires i < |s| && s[i] == c && c !in s[..i]
    ensures FindChar(s, c) == Some(i)
  {
    if i > 0 {
      assert s[..i][0] == s[0] && s[..i][1..] == s[1..][..i - 1];
      FindCharIs(s[1..], c, i - 1);
    }
  }
}

module Grammar {
  import opened Wrappers
  import opened Text

  datatype Part = Lit(text: string) | Var(name: string)

  datatype TemplateError = Unclosed | InvalidVariable | AdjacentVariables

  type Bindings = map<string, string>

  // Where one variable's value stands in the input.
  datatype Span = Span(from: nat, to: nat)

  predicate NameChar(c: char) {
    'a' <= c <= 'z' || 'A' <= c <= 'Z' || '0' <= c <= '9' || c == '_'
  }

  predicate ValidName(name: string) {
    name != "" && forall i | 0 <= i < |name| :: NameChar(name[i])
  }

  // A name is made of the letters, the digits and the underscore, and of nothing else.
  lemma NameCharsAre(c: char)
    ensures NameChar(c)
            <==> c in {'a', 'b', 'c', 'd', 'e', 'f', 'g', 'h', 'i', 'j', 'k', 'l', 'm', 'n', 'o', 'p', 'q',
                       'r', 's', 't', 'u', 'v', 'w', 'x', 'y', 'z', 'A', 'B', 'C', 'D', 'E', 'F', 'G', 'H',
                       'I', 'J', 'K', 'L', 'M', 'N', 'O', 'P', 'Q', 'R', 'S', 'T', 'U', 'V', 'W', 'X', 'Y',
                       'Z', '0', '1', '2', '3', '4', '5', '6', '7', '8', '9', '_'}
  {
  }

  // ---- parsing ----

  // What the cursor finds next: the last literal run, a malformed variable, or a variable
  // with the literal run before it, and how much text that takes.
  datatype Token = Last(run: seq<Part>) | Bad(error: TemplateError) | Took(parts: seq<Part>, used: nat)

  function LitRun(text: string): seq<Part> {
    if text == "" then [] else [Lit(text)]
  }

  function Next(rest: string): (token: Token)
    ensures token.Took? ==> 0 < token.used <= |rest|
  {
    match FindChar(rest, '{')
    case None => Last(LitRun(rest))
    case Some(open) =>
      match FindChar(rest[open..], '}')
      case None => Bad(Unclosed)
      case Some(close) =>
        var name := rest[open + 1..open + close];
        if ValidName(name) then Took(LitRun(rest[..open]) + [Var(name)], open + close + 1)
        else Bad(InvalidVariable)
  }

  function Prepend(parts: seq<Part>, r: Result<seq<Part>, TemplateError>): Result<seq<Part>, TemplateError> {
    match r
    case Ok(tail) => Ok(parts + tail)
    case Err(e) => Err(e)
  }

  // The parts of some text, literal runs and variables in turn; adjacency is checked after.
  function Scan(rest: string): Result<seq<Part>, TemplateError>
    decreases |rest|
  {
    match Next(rest)
    case Last(run) => Ok(run)
    case Bad(e) => Err(e)
    case Took(parts, used) => Prepend(parts, Scan(rest[used..]))
  }

  predicate NoAdjacentVars(parts: seq<Part>) {
    forall i {:trigger parts[i]} :: 0 <= i < |parts| - 1 ==> !(parts[i].Var? && parts[i + 1].Var?)
  }

  function Parse(source: string): Result<seq<Part>, TemplateError> {
    match Scan(source)
    case Err(e) => Err(e)
    case Ok(parts) => if NoAdjacentVars(parts) then Ok(parts) else Err(AdjacentVariables)
  }

  lemma PrependTwice(a: seq<Part>, b: seq<Part>, r: Result<seq<Part>, TemplateError>)
    ensures Prepend(a, Prepend(b, r)) == Prepend(a + b, r)
  {
    if r.Ok? {
      assert a + (b + r.value) == a + b + r.value;
    }
  }

  lemma PrependNothing(r: Result<seq<Part>, TemplateError>)
    ensures Prepend([], r) == r
  {
    if r.Ok? {
      assert [] + r.value == r.value;
    }
  }

  // The parser as the source runs it: a cursor over the text, and parts pushed as they close.
  method ParseTemplate(source: string) returns (r: Result<seq<Part>, TemplateError>)
    ensures r == Parse(source)
  {
    var parts: seq<Part> := [];
    var rest := source;
    var open := FindChar(rest, '{');
    PrependNothing(Scan(source));
    while open.Some?
      invariant open == FindChar(rest, '{')
      invariant Scan(source) == Prepend(parts, Scan(rest))
      decreases |rest|
    {
      var taken := TakeVariable(rest, open.value);
      if taken.Err? {
        return Err(taken.error);
      }
      var (pushed, used) := taken.value;
      PrependTwice(parts, pushed, Scan(rest[used..]));
      parts := parts + pushed;
      rest := rest[used..];
      open := FindChar(rest, '{');
    }
    assert Scan(source) == Ok(parts + LitRun(rest));
    if rest != "" {
      parts := parts + [Lit(rest)];
    } else {
      assert parts + [] == parts;
    }
    var apart := Windows(parts);
    return if apart then Ok(parts) else Err(AdjacentVariables);
  }

  // The parts one opening brace brings, and the text they take.
  method TakeVariable(rest: string, open: nat) returns (r: Result<(seq<Part>, nat), TemplateError>)
    requires FindChar(rest, '{') == Some(open)
    ensures match r
            case Err(e) => Next(rest) == Bad(e)
            case Ok((parts, used)) => Next(rest) == Took(parts, used)
  {
    var close := FindChar(rest[open..], '}');
    if close.None? {
      return Err(Unclosed);
    }
    var name := rest[open + 1..open + close.value];
    if !ValidName(name) {
      return Err(InvalidVariable);
    }
    var parts := if open > 0 then [Lit(rest[..open])] else [];
    return Ok((parts + [Var(name)], open + close.value + 1));
  }

  method Windows(parts: seq<Part>) returns (apart: bool)
    ensures apart <==> NoAdjacentVars(parts)
  {
    var i := 0;
    while i + 1 < |parts|
      invariant forall j {:trigger parts[j]} :: 0 <= j < i && j + 1 < |parts| ==> !(parts[j].Var? && parts[j + 1].Var?)
    {
      if parts[i].Var? && parts[i + 1].Var? {
        return false;
      }
      i := i + 1;
    }
    return true;
  }

  // A template's text, written back.
  function Render(parts: seq<Part>): string {
    if parts == [] then ""
    else
      (match parts[0]
       case Lit(text) => text
       case Var(name) => "{" + name + "}") + Render(parts[1..])
  }

  // Literals are non-empty, hold no opening brace and are never adjacent; names are names.
  predicate Separated(parts: seq<Part>) {
    parts != [] ==>
      && Separated(parts[1..])
      && match parts[0]
         case Lit(text) => text != "" && '{' !in text && (|parts| > 1 ==> parts[1].Var?)
         case Var(name) => ValidName(name)
  }

  predicate WellFormed(parts: seq<Part>) {
    Separated(parts) && NoAdjacentVars(parts)
  }

  // A variable, or a literal run and the variable after it, put in front of some parts.
  lemma SeparatedAfter(run: string, name: string, tail: seq<Part>)
    requires '{' !in run && ValidName(name) && Separated(tail)
    ensures Separated(LitRun(run) + [Var(name)] + tail)
    ensures Render(LitRun(run) + [Var(name)] + tail) == run + ("{" + name + "}") + Render(tail)
  {
    var named := [Var(name)] + tail;
    assert named[1..] == tail;
    if run == "" {
      assert LitRun(run) + [Var(name)] + tail == named;
      assert "" + ("{" + name + "}") + Render(tail) == ("{" + name + "}") + Render(tail);
    } else {
      var whole := LitRun(run) + [Var(name)] + tail;
      assert whole[1..] == named;
      assert run + ("{" + name + "}" + Render(tail)) == run + ("{" + name + "}") + Render(tail);
    }
  }

  // A text cut at its first brace and the brace that closes it.
  lemma CutAtBraces(rest: string, open: nat, close: nat)
    requires open + close < |rest| && 0 < close && rest[open] == '{' && rest[open + close] == '}'
    ensures rest == rest[..open] + ("{" + rest[open + 1..open + close] + "}") + rest[open + close + 1..]
  {
  }

  // What the cursor takes is a literal run and a variable, and what is left follows them.
  lemma TakenShape(source: string, parts: seq<Part>, used: nat) returns (run: string, name: string)
    requires Next(source) == Took(parts, used)
    ensures parts == LitRun(run) + [Var(name)] && '{' !in run && ValidName(name) && used <= |source|
    ensures source == run + ("{" + name + "}") + source[used..]
  {
    var open := FindChar(source, '{').value;
    var close := FindChar(source[open..], '}').value;
    run, name := source[..open], source[open + 1..open + close];
    assert source[open..][close] == source[open + close];
    CutAtBraces(source, open, close);
  }

  lemma ScanTook(source: string, parts: seq<Part>, used: nat)
    requires Next(source) == Took(parts, used)
    ensures Scan(source) == Prepend(parts, Scan(source[used..]))
  {
  }

  lemma {:induction false} ScanSound(source: string)
    requires Scan(source).Ok?
    ensures Separated(Scan(source).value) && Render(Scan(source).value) == source
    decreases |source|
  {
    match Next(source)
    case Last(run) =>
      assert run != [] ==> run[1..] == [] && source + "" == source;
    case Took(parts, used) =>
      var run, name := TakenShape(source, parts, used);
      ScanTook(source, parts, used);
      ScanSound(source[used..]);
      SeparatedAfter(run, name, Scan(source[used..]).value);
  }

  // A variable at the front of some text is what the cursor takes.
  lemma NextVar(name: string, rest: string)
    requires ValidName(name)
    ensures var source := ("{" + name + "}") + rest;
            Next(source) == Took([Var(name)], |name| + 2) && source[|name| + 2..] == rest
  {
    var source := ("{" + name + "}") + rest;
    FindCharIs(source, '{', 0);
    assert source[0..] == source;
    var upto := source[..|name| + 1];
    assert upto == "{" + name;
    assert '}' !in upto by {
      assert forall i | 0 <= i < |upto| :: i == 0 || NameChar(upto[i]);
    }
    FindCharIs(source, '}', |name| + 1);
    assert source[1..|name| + 1] == name;
    assert LitRun(source[..0]) + [Var(name)] == [Var(name)];
  }

  // A literal run is taken with the variable after it.
  lemma NextLit(text: string, name: string, rest: string)
    requires text != "" && '{' !in text && ValidName(name)
    ensures var source := text + (("{" + name + "}") + rest);
            Next(source) == Took([Lit(text), Var(name)], |text| + |name| + 2) && source[|text| + |name| + 2..] == rest
  {
    var var_ := ("{" + name + "}") + rest;
    var source := text + var_;
    NextVar(name, rest);
    FindCharIs(var_, '{', 0);
    assert source[..|text|] == text;
    FindCharIs(source, '{', |text|);
    assert source[|text|..] == var_ && var_[0..] == var_;
    var close := FindChar(var_, '}').value;
    assert source[|text| + 1..|text| + close] == var_[1..close];
    assert source[|text| + |name| + 2..] == var_[|name| + 2..];
    assert close == |name| + 1;
    assert LitRun(text) + [Var(name)] == [Lit(text), Var(name)];
  }

  lemma RenderPair(parts: seq<Part>)
    requires Separated(parts) && |parts| > 1 && parts[0].Lit?
    ensures parts[1].Var? && ValidName(parts[1].name) && Separated(parts[2..])
    ensures parts[0].text != "" && '{' !in parts[0].text
    ensures Render(parts) == parts[0].text + (("{" + parts[1].name + "}") + Render(parts[2..]))
  {
    assert parts[1..][1..] == parts[2..] && parts[1..][0] == parts[1];
  }

  // A text whose front is taken scans to what was taken and the rest.
  lemma ScanFront(source: string, parts: seq<Part>, used: nat, rest: string, tail: seq<Part>)
    requires Next(source) == Took(parts, used) && source[used..] == rest && Scan(rest) == Ok(tail)
    ensures Scan(source) == Ok(parts + tail)
  {
    ScanTook(source, parts, used);
  }

  lemma ScanLast(text: string)
    requires text != "" && '{' !in text
    ensures Scan(text) == Ok([Lit(text)])
  {
  }

  lemma CompleteVar(parts: seq<Part>)
    requires Separated(parts) && parts != [] && parts[0].Var? && Scan(Render(parts[1..])) == Ok(parts[1..])
    ensures Scan(Render(parts)) == Ok(parts)
  {
    NextVar(parts[0].name, Render(parts[1..]));
    ScanFront(Render(parts), [parts[0]], |parts[0].name| + 2, Render(parts[1..]), parts[1..]);
    assert parts == [parts[0]] + parts[1..];
  }

  lemma CompleteLit(parts: seq<Part>)
    requires Separated(parts) && |parts| > 1 && parts[0].Lit? && Scan(Render(parts[2..])) == Ok(parts[2..])
    ensures Scan(Render(parts)) == Ok(parts)
  {
    RenderPair(parts);
    NextLit(parts[0].text, parts[1].name, Render(parts[2..]));
    ScanFront(Render(parts), [parts[0], parts[1]], |parts[0].text| + |parts[1].name| + 2, Render(parts[2..]),
              parts[2..]);
    assert parts == [parts[0], parts[1]] + parts[2..];
  }

  lemma {:induction false} ScanComplete(parts: seq<Part>)
    requires Separated(parts)
    ensures Scan(Render(parts)) == Ok(parts)
    decreases |parts|
  {
    if parts == [] {
    } else if parts[0].Var? {
      ScanComplete(parts[1..]);
      CompleteVar(parts);
    } else if |parts| == 1 {
      assert parts[1..] == [] && parts[0].text + "" == parts[0].text;
      ScanLast(parts[0].text);
      assert parts == [parts[0]];
    } else {
      RenderPair(parts);
      ScanComplete(parts[2..]);
      CompleteLit(parts);
    }
  }

  // Parsing and writing back are inverse: a text parses to `parts` exactly when `parts` is a
  // well-formed template whose text it is. So every refusal is of a text no template has.
  lemma ParseIsInverse(source: string, parts: seq<Part>)
    ensures Parse(source) == Ok(parts) <==> WellFormed(parts) && Render(parts) == source
  {
    if Parse(source) == Ok(parts) {
      ScanSound(source);
    }
    if WellFormed(parts) && Render(parts) == source {
      ScanComplete(parts);
    }
  }

  // ---- expanding ----

  function Variables(parts: seq<Part>): seq<string> {
    if parts == [] then []
    else (if parts[0].Var? then [parts[0].name] else []) + Variables(parts[1..])
  }

  function Expand(parts: seq<Part>, bindings: Bindings): Option<string> {
    if parts == [] then Some("")
    else
      match parts[0]
      case Lit(text) => Prefixed(text, Expand(parts[1..], bindings))
      case Var(name) => if name in bindings then Prefixed(bindings[name], Expand(parts[1..], bindings)) else None
  }

  function Prefixed(text: string, r: Option<string>): Option<string> {
    match r
    case None => None
    case Some(rest) => Some(text + rest)
  }

  method ExpandTemplate(parts: seq<Part>, bindings: Bindings) returns (r: Option<string>)
    ensures r == Expand(parts, bindings)
  {
    var out := "";
    assert parts[0..] == parts;
    NothingPrefixed(Expand(parts, bindings));
    for i := 0 to |parts|
      invariant Expand(parts, bindings) == Prefixed(out, Expand(parts[i..], bindings))
    {
      assert parts[i..][1..] == parts[i + 1..];
      ghost var before, rest := out, Expand(parts[i + 1..], bindings);
      match parts[i]
      case Lit(text) =>
        out := out + text;
        PrefixedTwice(before, text, rest);
      case Var(name) =>
        if name !in bindings {
          return None;
        }
        out := out + bindings[name];
        PrefixedTwice(before, bindings[name], rest);
    }
    assert out + "" == out;
    return Some(out);
  }

  lemma NothingPrefixed(r: Option<string>)
    ensures Prefixed("", r) == r
  {
    if r.Some? {
      assert "" + r.value == r.value;
    }
  }

  lemma PrefixedTwice(a: string, b: string, r: Option<string>)
    ensures Prefixed(a, Prefixed(b, r)) == Prefixed(a + b, r)
  {
    if r.Some? {
      assert a + (b + r.value) == a + b + r.value;
    }
  }

  lemma {:induction false} ExpandsWhenBound(parts: seq<Part>, bindings: Bindings)
    ensures Expand(parts, bindings).Some? <==> forall name | name in Variables(parts) :: name in bindings
    decreases |parts|
  {
    if parts != [] {
      ExpandsWhenBound(parts[1..], bindings);
      if parts[0].Var? {
        assert parts[0].name in Variables(parts);
        assert forall name | name in Variables(parts[1..]) :: name in Variables(parts);
      } else {
        assert Variables(parts) == Variables(parts[1..]);
      }
    }
  }

  // ---- matching ----

  // `spans` splits the input from `pos` on by the parts from `i` on: literals stand where they
  // must, and each variable takes a run, non-empty unless it may be empty.
  ghost predicate Splits(parts: seq<Part>, i: nat, input: string, pos: nat, spans: seq<Span>, empty: set<string>)
    requires i <= |parts|
    decreases |parts| - i
  {
    if i == |parts| then pos == |input| && spans == []
    else
      match parts[i]
      case Lit(text) => OccursAt(input, text, pos) && Splits(parts, i + 1, input, pos + |text|, spans, empty)
      case Var(name) =>
        && spans != []
        && spans[0].from == pos <= spans[0].to <= |input|
        && (pos < spans[0].to || name in empty)
        && Splits(parts, i + 1, input, spans[0].to, spans[1..], empty)
  }

  // Lexicographic order on splits: the first span that differs ends sooner.
  ghost predicate NoLater(a: seq<Span>, b: seq<Span>) {
    a == [] || b == [] || a[0].to < b[0].to || (a[0].to == b[0].to && NoLater(a[1..], b[1..]))
  }

  // The search with nothing remembered: every end in turn for every variable.
  function Search(parts: seq<Part>, i: nat, input: string, pos: nat, empty: set<string>): Option<seq<Span>>
    requires i <= |parts| && pos <= |input|
    decreases |parts| - i, 1, 0
  {
    if i == |parts| then if pos == |input| then Some([]) else None
    else
      match parts[i]
      case Lit(text) => if OccursAt(input, text, pos) then Search(parts, i + 1, input, pos + |text|, empty) else None
      case Var(name) => SearchEnd(parts, i, input, pos, pos, empty)
  }

  // The first end at or after `from` whose rest matches.
  function SearchEnd(parts: seq<Part>, i: nat, input: string, pos: nat, from: nat, empty: set<string>)
    : Option<seq<Span>>
    requires i < |parts| && parts[i].Var? && pos <= from <= |input|
    decreases |parts| - i, 0, |input| - from
  {
    var rest := if pos < from || parts[i].name in empty then Search(parts, i + 1, input, from, empty) else None;
    if rest.Some? then Some([Span(pos, from)] + rest.value)
    else if from == |input| then None
    else SearchEnd(parts, i, input, pos, from + 1, empty)
  }

  // The plain search finds a split exactly when there is one, and the leftmost.
  ghost predicate IsLeftmost(parts: seq<Part>, i: nat, input: string, pos: nat, empty: set<string>,
                             found: Option<seq<Span>>)
    requires i <= |parts|
  {
    match found
    case None => forall spans :: !Splits(parts, i, input, pos, spans, empty)
    case Some(best) =>
      && Splits(parts, i, input, pos, best, empty)
      && forall spans :: Splits(parts, i, input, pos, spans, empty) ==> NoLater(best, spans)
  }

  lemma {:induction false} SearchIsLeftmost(parts: seq<Part>, i: nat, input: string, pos: nat, empty: set<string>)
    requires i <= |parts| && pos <= |input|
    ensures IsLeftmost(parts, i, input, pos, empty, Search(parts, i, input, pos, empty))
    decreases |parts| - i, 1, 0
  {
    if i < |parts| {
      match parts[i]
      case Lit(text) =>
        if OccursAt(input, text, pos) {
          SearchIsLeftmost(parts, i + 1, input, pos + |text|, empty);
        }
      case Var(name) =>
        SearchEndIsLeftmost(parts, i, input, pos, pos, empty);
    }
  }

  lemma {:induction false} SearchEndIsLeftmost(parts: seq<Part>, i: nat, input: string, pos: nat, from: nat,
                                               empty: set<string>)
    requires i < |parts| && parts[i].Var? && pos <= from <= |input|
    ensures var found := SearchEnd(parts, i, input, pos, from, empty);
            && (found.Some? ==> Splits(parts, i, input, pos, found.value, empty) && from <= found.value[0].to)
            && forall spans: seq<Span> :: Splits(parts, i, input, pos, spans, empty) && from <= spans[0].to ==>
                 found.Some? && NoLater(found.value, spans)
    decreases |parts| - i, 0, |input| - from
  {
    SearchIsLeftmost(parts, i + 1, input, from, empty);
    var here := pos < from || parts[i].name in empty;
    var rest := if here then Search(parts, i + 1, input, from, empty) else None;
    if rest.Some? {
      var found := [Span(pos, from)] + rest.value;
      assert found[1..] == rest.value;
    } else if from < |input| {
      SearchEndIsLeftmost(parts, i, input, pos, from + 1, empty);
    }
  }

  // ---- the matcher ----

  // The search with what it remembers: the captures so far, and the places already shown not
  // to match.
  class Matcher {
    const parts: seq<Part>
    const input: string
    const empty: set<string>
    var captures: seq<Span>
    var failed: set<(nat, nat)>

    constructor (parts: seq<Part>, input: string, empty: set<string>)
      ensures this.parts == parts && this.input == input && this.empty == empty
      ensures captures == [] && failed == {}
    {
      this.parts, this.input, this.empty := parts, input, empty;
      captures, failed := [], {};
    }

    // Every place remembered really does not match.
    ghost predicate Remembers()
      reads this
    {
      forall i: nat, pos: nat | (i, pos) in failed ::
        i < |parts| && pos <= |input| && Search(parts, i, input, pos, empty).None?
    }

    // Match the parts from `i` on at `pos`: on success the captures gain the leftmost split, on
    // failure they are as they were.
    method MatchFrom(i: nat, pos: nat) returns (matched: bool)
      requires WellFormed(parts) && i <= |parts| && pos <= |input| && Remembers()
      modifies this
      ensures Remembers()
      ensures matched <==> Search(parts, i, input, pos, empty).Some?
      ensures captures == old(captures) + if matched then Search(parts, i, input, pos, empty).value else []
      decreases |parts| - i, 1
    {
      if i == |parts| {
        return pos == |input|;
      }
      if (i, pos) in failed {
        return false;
      }
      match parts[i]
      case Lit(text) =>
        matched := false;
        if OccursAt(input, text, pos) {
          matched := MatchFrom(i + 1, pos + |text|);
        }
      case Var(name) =>
        if i + 1 < |parts| {
          matched := MatchVar(i, pos);
        } else {
          LastTakesRest(parts, i, input, pos, pos, empty);
          if pos == |input| && name !in empty {
            matched := false;
          } else {
            captures := captures + [Span(pos, |input|)];
            matched := true;
          }
        }
      if !matched {
        failed := failed + {(i, pos)};
      }
    }

    // A variable before a literal: that literal's occurrences, leftmost first.
    method MatchVar(i: nat, pos: nat) returns (found: bool)
      requires WellFormed(parts) && i + 1 < |parts| && parts[i].Var? && pos <= |input| && Remembers()
      modifies this
      ensures Remembers()
      ensures found <==> SearchEnd(parts, i, input, pos, pos, empty).Some?
      ensures captures == old(captures) + if found then SearchEnd(parts, i, input, pos, pos, empty).value else []
      decreases |parts| - i, 0
    {
      WellFormedNext(parts, i);
      var next := parts[i + 1].text;
      var from := pos;
      var at := FindFrom(input, next, from);
      while at.Some?
        invariant Remembers() && pos <= from <= |input| && at == FindFrom(input, next, from)
        invariant captures == old(captures)
        invariant SearchEnd(parts, i, input, pos, pos, empty) == SearchEnd(parts, i, input, pos, from, empty)
        decreases |input| - from
      {
        SkipToOccurrence(parts, i, next, input, pos, from, at.value, empty);
        if at.value > pos || parts[i].name in empty {
          found := TryEnd(i, pos, at.value);
          if found {
            return true;
          }
        }
        from := at.value + 1;
        at := FindFrom(input, next, from);
      }
      NoOccurrence(parts, i, next, input, pos, from, empty);
      return false;
    }

    // Take one end for the variable, and give it back when the rest does not match.
    method TryEnd(i: nat, pos: nat, at: nat) returns (found: bool)
      requires WellFormed(parts) && i + 1 < |parts| && pos <= at <= |input| && Remembers()
      modifies this
      ensures Remembers()
      ensures found <==> Search(parts, i + 1, input, at, empty).Some?
      ensures captures == old(captures)
                          + if found then [Span(pos, at)] + Search(parts, i + 1, input, at, empty).value else []
      decreases |parts| - i - 1, 2
    {
      ghost var before := captures;
      captures := captures + [Span(pos, at)];
      found := MatchFrom(i + 1, at);
      if found {
        assert captures == before + ([Span(pos, at)] + Search(parts, i + 1, input, at, empty).value);
      } else {
        captures := captures[..|captures| - 1];
        assert captures == before;
      }
    }
  }

  lemma {:induction false} SeparatedAt(parts: seq<Part>, i: nat)
    requires Separated(parts) && i < |parts|
    ensures match parts[i] case Lit(text) => text != "" case Var(name) => ValidName(name)
    decreases i
  {
    if i > 0 {
      SeparatedAt(parts[1..], i - 1);
    }
  }

  // A variable is followed by a non-empty literal.
  lemma WellFormedNext(parts: seq<Part>, i: nat)
    requires WellFormed(parts) && i + 1 < |parts| && parts[i].Var?
    ensures parts[i + 1].Lit? && parts[i + 1].text != ""
  {
    SeparatedAt(parts, i + 1);
  }

  // No end before the next literal's next occurrence can be one.
  lemma {:induction false} SkipToOccurrence(parts: seq<Part>, i: nat, next: string, input: string, pos: nat,
                                            from: nat, at: nat, empty: set<string>)
    requires i + 1 < |parts| && parts[i].Var? && parts[i + 1] == Lit(next)
    requires pos <= from <= at <= |input|
    requires forall end: nat | from <= end < at :: !OccursAt(input, next, end)
    ensures SearchEnd(parts, i, input, pos, from, empty) == SearchEnd(parts, i, input, pos, at, empty)
    decreases at - from
  {
    if from < at {
      assert !OccursAt(input, next, from);
      SkipToOccurrence(parts, i, next, input, pos, from + 1, at, empty);
    }
  }

  lemma NoOccurrence(parts: seq<Part>, i: nat, next: string, input: string, pos: nat, from: nat, empty: set<string>)
    requires i + 1 < |parts| && parts[i].Var? && parts[i + 1] == Lit(next)
    requires pos <= from <= |input|
    requires forall end: nat | from <= end :: !OccursAt(input, next, end)
    ensures SearchEnd(parts, i, input, pos, from, empty).None?
  {
    SkipToOccurrence(parts, i, next, input, pos, from, |input|, empty);
    assert !OccursAt(input, next, |input|);
  }

  // A final variable takes everything left.
  lemma {:induction false} LastTakesRest(parts: seq<Part>, i: nat, input: string, pos: nat, from: nat,
                                         empty: set<string>)
    requires i + 1 == |parts| && parts[i].Var? && pos <= from <= |input|
    ensures SearchEnd(parts, i, input, pos, from, empty)
            == if pos == |input| && parts[i].name !in empty then None else Some([Span(pos, |input|)])
    decreases |input| - from
  {
    if from < |input| {
      LastTakesRest(parts, i, input, pos, from + 1, empty);
    } else {
      assert [Span(pos, from)] + [] == [Span(pos, |input|)];
    }
  }

  // ---- bindings ----

  // The captured text under each name; a name met twice keeps the last.
  function Bind(names: seq<string>, spans: seq<Span>, input: string): Bindings
    requires forall i | 0 <= i < |spans| :: spans[i].from <= spans[i].to <= |input|
  {
    var n := if |names| <= |spans| then |names| else |spans|;
    BindFirst(names, spans, input, n)
  }

  function BindFirst(names: seq<string>, spans: seq<Span>, input: string, n: nat): Bindings
    requires n <= |names| && n <= |spans|
    requires forall i | 0 <= i < |spans| :: spans[i].from <= spans[i].to <= |input|
  {
    if n == 0 then map[]
    else BindFirst(names, spans, input, n - 1)[names[n - 1] := input[spans[n - 1].from..spans[n - 1].to]]
  }

  lemma {:induction false} SplitsAreSpans(parts: seq<Part>, i: nat, input: string, pos: nat, spans: seq<Span>,
                                          empty: set<string>)
    requires i <= |parts| && Splits(parts, i, input, pos, spans, empty)
    ensures forall k | 0 <= k < |spans| :: spans[k].from <= spans[k].to <= |input|
    ensures |spans| == |Variables(parts[i..])|
    decreases |parts| - i
  {
    if i < |parts| {
      assert parts[i..][1..] == parts[i + 1..];
      match parts[i]
      case Lit(text) => SplitsAreSpans(parts, i + 1, input, pos + |text|, spans, empty);
      case Var(name) =>
        SplitsAreSpans(parts, i + 1, input, spans[0].to, spans[1..], empty);
        forall k | 0 <= k < |spans| ensures spans[k].from <= spans[k].to <= |input| {
          assert k > 0 ==> spans[k] == spans[1..][k - 1];
        }
    }
  }

  function Match(parts: seq<Part>, input: string, empty: set<string>): Option<Bindings> {
    match Search(parts, 0, input, 0, empty)
    case None => None
    case Some(spans) =>
      SearchIsLeftmost(parts, 0, input, 0, empty);
      SplitsAreSpans(parts, 0, input, 0, spans, empty);
      Some(Bind(Variables(parts), spans, input))
  }

  method MatchWithEmpty(parts: seq<Part>, input: string, empty: set<string>) returns (r: Option<Bindings>)
    requires WellFormed(parts)
    ensures r == Match(parts, input, empty)
  {
    var matcher := new Matcher(parts, input, empty);
    var matched := matcher.MatchFrom(0, 0);
    if !matched {
      return None;
    }
    SearchIsLeftmost(parts, 0, input, 0, empty);
    assert matcher.captures == Search(parts, 0, input, 0, empty).value;
    SplitsAreSpans(parts, 0, input, 0, matcher.captures, empty);
    assert parts[0..] == parts;
    var names, captures := Variables(parts), matcher.captures;
    var bindings: Bindings := map[];
    for k := 0 to |names|
      invariant bindings == BindFirst(names, captures, input, k)
    {
      bindings := bindings[names[k] := input[captures[k].from..captures[k].to]];
    }
    return Some(bindings);
  }

  // ---- what a match means ----

  // The template's text with the given texts in its variables, in order.
  function FillIn(parts: seq<Part>, texts: seq<string>): string
    requires |texts| == |Variables(parts)|
  {
    if parts == [] then ""
    else
      match parts[0]
      case Lit(text) => text + FillIn(parts[1..], texts)
      case Var(name) => texts[0] + FillIn(parts[1..], texts[1..])
  }

  function Texts(input: string, spans: seq<Span>): seq<string>
    requires forall k | 0 <= k < |spans| :: spans[k].from <= spans[k].to <= |input|
  {
    seq(|spans|, k requires 0 <= k < |spans| => input[spans[k].from..spans[k].to])
  }

  lemma SplitSlice(input: string, from: nat, to: nat)
    requires from <= to <= |input|
    ensures input[from..] == input[from..to] + input[to..]
  {
  }

  lemma TextsTail(input: string, spans: seq<Span>)
    requires spans != [] && forall k | 0 <= k < |spans| :: spans[k].from <= spans[k].to <= |input|
    ensures Texts(input, spans)[0] == input[spans[0].from..spans[0].to]
    ensures Texts(input, spans)[1..] == Texts(input, spans[1..])
  {
  }

  // A split lays the input out as the template with the captured texts filled in.
  lemma {:induction false} SplitFillsIn(parts: seq<Part>, i: nat, input: string, pos: nat, spans: seq<Span>,
                                        empty: set<string>)
    requires i <= |parts| && pos <= |input| && Splits(parts, i, input, pos, spans, empty)
    requires forall k | 0 <= k < |spans| :: spans[k].from <= spans[k].to <= |input|
    requires |spans| == |Variables(parts[i..])|
    ensures input[pos..] == FillIn(parts[i..], Texts(input, spans))
    decreases |parts| - i
  {
    if i < |parts| {
      assert parts[i..][1..] == parts[i + 1..];
      match parts[i]
      case Lit(text) =>
        SplitFillsIn(parts, i + 1, input, pos + |text|, spans, empty);
        SplitSlice(input, pos, pos + |text|);
      case Var(name) =>
        TextsTail(input, spans);
        SplitFillsIn(parts, i + 1, input, spans[0].to, spans[1..], empty);
        SplitSlice(input, pos, spans[0].to);
    }
  }

  // Expanding fills each variable in with its binding.
  lemma {:induction false} ExpandFillsIn(parts: seq<Part>, bindings: Bindings, texts: seq<string>)
    requires |texts| == |Variables(parts)|
    requires forall k | 0 <= k < |texts| :: Variables(parts)[k] in bindings && bindings[Variables(parts)[k]] == texts[k]
    ensures Expand(parts, bindings) == Some(FillIn(parts, texts))
  {
    if parts != [] {
      match parts[0]
      case Lit(text) =>
        assert Variables(parts) == Variables(parts[1..]);
        ExpandFillsIn(parts[1..], bindings, texts);
      case Var(name) =>
        assert Variables(parts)[0] == name;
        forall k | 0 <= k < |texts| - 1
          ensures Variables(parts[1..])[k] in bindings && bindings[Variables(parts[1..])[k]] == texts[1..][k]
        {
          assert Variables(parts)[k + 1] == Variables(parts[1..])[k];
        }
        ExpandFillsIn(parts[1..], bindings, texts[1..]);
    }
  }

  predicate NonEmptyValues(parts: seq<Part>, bindings: Bindings) {
    forall name | name in Variables(parts) :: name in bindings && bindings[name] != ""
  }

  // Any filling-in with non-empty texts is a split.
  lemma {:induction false} FillInSplits(parts: seq<Part>, i: nat, input: string, pos: nat, texts: seq<string>)
    returns (spans: seq<Span>)
    requires i <= |parts| && pos <= |input| && |texts| == |Variables(parts[i..])|
    requires input[pos..] == FillIn(parts[i..], texts) && forall k | 0 <= k < |texts| :: texts[k] != ""
    ensures Splits(parts, i, input, pos, spans, {})
    decreases |parts| - i
  {
    if i == |parts| {
      spans := [];
    } else {
      assert parts[i..][1..] == parts[i + 1..];
      match parts[i]
      case Lit(text) =>
        var rest := FillIn(parts[i + 1..], texts);
        FillInAt(input, pos, text, rest);
        spans := FillInSplits(parts, i + 1, input, pos + |text|, texts);
      case Var(name) =>
        var rest := FillIn(parts[i + 1..], texts[1..]);
        FillInAt(input, pos, texts[0], rest);
        var later := FillInSplits(parts, i + 1, input, pos + |texts[0]|, texts[1..]);
        spans := [Span(pos, pos + |texts[0]|)] + later;
        assert spans[1..] == later;
    }
  }

  lemma FillInAt(input: string, pos: nat, text: string, rest: string)
    requires pos <= |input| && input[pos..] == text + rest
    ensures OccursAt(input, text, pos) && input[pos + |text|..] == rest
  {
    assert input[pos..pos + |text|] == input[pos..][..|text|];
    assert input[pos + |text|..] == input[pos..][|text|..];
  }

  // A template matches every text it expands to with non-empty values, whatever the values
  // hold, and whether or not a name is repeated.
  lemma MatchesItsExpansions(parts: seq<Part>, bindings: Bindings)
    requires NonEmptyValues(parts, bindings)
    ensures Expand(parts, bindings).Some? && Match(parts, Expand(parts, bindings).value, {}).Some?
  {
    var names := Variables(parts);
    assert forall k | 0 <= k < |names| :: names[k] in names;
    var texts := seq(|names|, k requires 0 <= k < |names| => bindings[names[k]]);
    ExpandFillsIn(parts, bindings, texts);
    var input := FillIn(parts, texts);
    assert parts[0..] == parts && input[0..] == input;
    var spans := FillInSplits(parts, 0, input, 0, texts);
    SearchIsLeftmost(parts, 0, input, 0, {});
  }

  predicate Distinct(names: seq<string>) {
    forall i, j | 0 <= i < j < |names| :: names[i] != names[j]
  }

  lemma {:induction false} BindDistinct(names: seq<string>, spans: seq<Span>, input: string, n: nat, k: nat)
    requires Distinct(names) && k < n <= |names| && n <= |spans|
    requires forall i | 0 <= i < |spans| :: spans[i].from <= spans[i].to <= |input|
    ensures var bound := BindFirst(names, spans, input, n);
            names[k] in bound && bound[names[k]] == input[spans[k].from..spans[k].to]
    decreases n
  {
    if k < n - 1 {
      BindDistinct(names, spans, input, n - 1, k);
    }
  }

  // With distinct names, expanding what was matched gives the input back, with every value
  // non-empty unless it may be empty.
  lemma ReexpandsMatch(parts: seq<Part>, input: string, empty: set<string>)
    requires Distinct(Variables(parts)) && Match(parts, input, empty).Some?
    ensures Expand(parts, Match(parts, input, empty).value) == Some(input)
    ensures empty == {} ==> NonEmptyValues(parts, Match(parts, input, empty).value)
  {
    SearchIsLeftmost(parts, 0, input, 0, empty);
    var spans, names := Search(parts, 0, input, 0, empty).value, Variables(parts);
    assert parts[0..] == parts && input[0..] == input;
    SplitsAreSpans(parts, 0, input, 0, spans, empty);
    SplitFillsIn(parts, 0, input, 0, spans, empty);
    var bound := Match(parts, input, empty).value;
    forall k | 0 <= k < |names|
      ensures names[k] in bound && bound[names[k]] == Texts(input, spans)[k]
    {
      BindDistinct(names, spans, input, |names|, k);
    }
    ExpandFillsIn(parts, bound, Texts(input, spans));
    if empty == {} {
      SpansNonEmpty(parts, 0, input, 0, spans);
    }
  }

  lemma {:induction false} SpansNonEmpty(parts: seq<Part>, i: nat, input: string, pos: nat, spans: seq<Span>)
    requires i <= |parts| && Splits(parts, i, input, pos, spans, {})
    ensures forall k | 0 <= k < |spans| :: spans[k].from < spans[k].to
    decreases |parts| - i
  {
    if i < |parts| {
      match parts[i]
      case Lit(text) => SpansNonEmpty(parts, i + 1, input, pos + |text|, spans);
      case Var(name) =>
        SpansNonEmpty(parts, i + 1, input, spans[0].to, spans[1..]);
        forall k | 0 <= k < |spans| ensures spans[k].from < spans[k].to {
          assert k > 0 ==> spans[k] == spans[1..][k - 1];
        }
    }
  }

  // So with distinct names a template matches exactly the texts it expands to.
  lemma MatchesExactlyItsExpansions(parts: seq<Part>, input: string)
    requires Distinct(Variables(parts))
    ensures Match(parts, input, {}).Some?
            <==> exists bindings :: NonEmptyValues(parts, bindings) && Expand(parts, bindings) == Some(input)
  {
    if Match(parts, input, {}).Some? {
      ReexpandsMatch(parts, input, {});
    }
    if bindings :| NonEmptyValues(parts, bindings) && Expand(parts, bindings) == Some(input) {
      MatchesItsExpansions(parts, bindings);
    }
  }

  // ---- a name met twice ----

  ghost predicate Units(texts: seq<string>) {
    forall k | 0 <= k < |texts| :: |texts[k]| == 1
  }

  // One character in every variable is the leftmost split of the text it makes.
  lemma {:induction false} UnitSearch(parts: seq<Part>, i: nat, input: string, pos: nat, texts: seq<string>)
    requires i <= |parts| && pos <= |input| && |texts| == |Variables(parts[i..])| && Units(texts)
    requires input[pos..] == FillIn(parts[i..], texts)
    ensures var found := Search(parts, i, input, pos, {});
            && found.Some? && |found.value| == |texts|
            && (forall k | 0 <= k < |texts| :: found.value[k].from <= found.value[k].to <= |input|)
            && Texts(input, found.value) == texts
    decreases |parts| - i
  {
    if i < |parts| {
      assert parts[i..][1..] == parts[i + 1..];
      match parts[i]
      case Lit(text) =>
        FillInAt(input, pos, text, FillIn(parts[i + 1..], texts));
        UnitSearch(parts, i + 1, input, pos + |text|, texts);
      case Var(name) =>
        FillInAt(input, pos, texts[0], FillIn(parts[i + 1..], texts[1..]));
        UnitSearch(parts, i + 1, input, pos + 1, texts[1..]);
        var later := Search(parts, i + 1, input, pos + 1, {}).value;
        assert SearchEnd(parts, i, input, pos, pos + 1, {}) == Some([Span(pos, pos + 1)] + later);
        assert SearchEnd(parts, i, input, pos, pos, {}) == SearchEnd(parts, i, input, pos, pos + 1, {});
        var found := [Span(pos, pos + 1)] + later;
        forall k | 0 <= k < |texts| ensures found[k].from <= found[k].to <= |input| {
          assert k > 0 ==> found[k] == later[k - 1];
        }
        assert Texts(input, found) == [texts[0]] + Texts(input, later);
    } else {
      assert Texts(input, []) == [];
    }
  }

  lemma {:induction false} UnitFillInjective(parts: seq<Part>, a: seq<string>, b: seq<string>)
    requires |a| == |b| == |Variables(parts)| && Units(a) && Units(b)
    requires FillIn(parts, a) == FillIn(parts, b)
    ensures a == b
  {
    if parts != [] {
      match parts[0]
      case Lit(text) =>
        assert FillIn(parts, a)[|text|..] == FillIn(parts[1..], a);
        assert FillIn(parts, b)[|text|..] == FillIn(parts[1..], b);
        UnitFillInjective(parts[1..], a, b);
      case Var(name) =>
        assert FillIn(parts, a)[..1] == a[0] && FillIn(parts, a)[1..] == FillIn(parts[1..], a[1..]);
        assert FillIn(parts, b)[..1] == b[0] && FillIn(parts, b)[1..] == FillIn(parts[1..], b[1..]);
        UnitFillInjective(parts[1..], a[1..], b[1..]);
        assert a == [a[0]] + a[1..] && b == [b[0]] + b[1..];
    }
  }

  // What a binding keeps of a name is the text of its last occurrence.
  lemma {:induction false} BindKeepsLast(names: seq<string>, spans: seq<Span>, input: string, n: nat, k: nat)
    requires k < n <= |names| && n <= |spans|
    requires forall i | 0 <= i < |spans| :: spans[i].from <= spans[i].to <= |input|
    ensures var bound := BindFirst(names, spans, input, n);
            names[k] in bound
            && exists j | k <= j < n :: names[j] == names[k] && bound[names[k]] == input[spans[j].from..spans[j].to]
    decreases n
  {
    if names[n - 1] != names[k] {
      BindKeepsLast(names, spans, input, n - 1, k);
      var j :| k <= j < n - 1 && names[j] == names[k]
               && BindFirst(names, spans, input, n - 1)[names[k]] == input[spans[j].from..spans[j].to];
      assert BindFirst(names, spans, input, n)[names[k]] == input[spans[j].from..spans[j].to];
    } else {
      assert BindFirst(names, spans, input, n)[names[k]] == input[spans[n - 1].from..spans[n - 1].to];
    }
  }

  // A text no re-expansion gives back: one character in every variable, and another one where
  // the repeated name is met first.
  lemma RepeatedNameLosesText(parts: seq<Part>, first: nat, again: nat) returns (input: string)
    requires first < again < |Variables(parts)| && Variables(parts)[first] == Variables(parts)[again]
    ensures Match(parts, input, {}).Some? && Expand(parts, Match(parts, input, {}).value) != Some(input)
  {
    var names := Variables(parts);
    var texts := seq(|names|, k => if k == first then "x" else "y");
    input := FillIn(parts, texts);
    assert parts[0..] == parts && input[0..] == input;
    UnitSearch(parts, 0, input, 0, texts);
    var spans := Search(parts, 0, input, 0, {}).value;
    var bound := Match(parts, input, {}).value;
    forall k | 0 <= k < |names|
      ensures names[k] in bound && exists j | k <= j < |names| :: bound[names[k]] == texts[j]
    {
      BoundToText(names, spans, input, texts, k);
    }
    var kept := seq(|names|, k requires 0 <= k < |names| => bound[names[k]]);
    ExpandFillsIn(parts, bound, kept);
    var j :| again <= j < |names| && bound[names[again]] == texts[j];
    assert kept[first] == "y" && texts[first] == "x";
    if FillIn(parts, kept) == input {
      UnitFillInjective(parts, kept, texts);
    }
  }

  // What is bound to a name is one of the texts from its place on.
  lemma BoundToText(names: seq<string>, spans: seq<Span>, input: string, texts: seq<string>, k: nat)
    requires |names| == |spans| == |texts| && k < |names|
    requires (forall i | 0 <= i < |spans| :: spans[i].from <= spans[i].to <= |input|) && Texts(input, spans) == texts
    ensures var bound := BindFirst(names, spans, input, |names|);
            names[k] in bound && exists j | k <= j < |names| :: bound[names[k]] == texts[j]
  {
    BindKeepsLast(names, spans, input, |names|, k);
    var j :| k <= j < |names| && names[j] == names[k]
             && BindFirst(names, spans, input, |names|)[names[k]] == input[spans[j].from..spans[j].to];
    assert Texts(input, spans)[j] == texts[j];
  }

  // Expanding a match gives the input back, for every input, exactly when no name is repeated.
  lemma ReexpandsIffDistinct(parts: seq<Part>)
    ensures (forall input :: Match(parts, input, {}).Some? ==>
               Expand(parts, Match(parts, input, {}).value) == Some(input))
            <==> Distinct(Variables(parts))
  {
    if Distinct(Variables(parts)) {
      forall input | Match(parts, input, {}).Some?
        ensures Expand(parts, Match(parts, input, {}).value) == Some(input)
      {
        ReexpandsMatch(parts, input, {});
      }
    } else {
      var first, again :| 0 <= first < again < |Variables(parts)| && Variables(parts)[first] == Variables(parts)[again];
      var input := RepeatedNameLosesText(parts, first, again);
    }
  }
}
