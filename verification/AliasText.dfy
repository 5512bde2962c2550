// The alias table's line form (crates/ikigai-core/src/alias.rs:1016-1150): reading it, writing it,
// and exactly which tables come back as they were written.

module AliasTexts {
  import opened Wrappers
  import opened Words
  import opened Text
  import opened Sorting
  import opened Grammar
  import opened ContractIris
  import opened AliasRules
  import opened AliasOrder
  import opened AliasTables

  // The code points of the Unicode property White_Space.
  predicate White(c: char) {
    var n := c as int;
    || 0x9 <= n <= 0xD || n == 0x20 || n == 0x85 || n == 0xA0 || n == 0x1680
    || 0x2000 <= n <= 0x200A || n == 0x2028 || n == 0x2029 || n == 0x202F || n == 0x205F || n == 0x3000
  }

  function WordEnd(s: string): (n: nat)
    ensures n <= |s| && forall k | 0 <= k < n :: !White(s[k])
    ensures n < |s| ==> White(s[n])
  {
    if s == "" || White(s[0]) then 0 else 1 + WordEnd(s[1..])
  }

  // The words of a line, whatever whitespace stands around them.
  function Fields(s: string): seq<string>
    decreases |s|
  {
    if s == "" then []
    else if White(s[0]) then Fields(s[1..])
    else
      assert WordEnd(s) > 0;
      [s[..WordEnd(s)]] + Fields(s[WordEnd(s)..])
  }

  function BeforeHash(line: string): string {
    match FindChar(line, '#')
    case None => line
    case Some(i) => line[..i]
  }

  function StripReturn(line: string): string {
    if line != "" && line[|line| - 1] == '\r' then line[..|line| - 1] else line
  }

  function Lines(text: string): seq<string>
    decreases |text|
  {
    if text == "" then []
    else
      match FindChar(text, '\n')
      case None => [text]
      case Some(i) => [StripReturn(text[..i])] + Lines(text[i + 1..])
  }

  // ---- numbers ----

  predicate IsDigit(c: char) { '0' <= c <= '9' }

  function DigitsValue(s: string): nat
    requires forall k | 0 <= k < |s| :: IsDigit(s[k])
  {
    if s == "" then 0
    else
      assert IsDigit(s[|s| - 1]);
      DigitsValue(s[..|s| - 1]) * 10 + (s[|s| - 1] as int - '0' as int)
  }

  // The text after a leading plus.
  function Unsigned(s: string): string { if s != "" && s[0] == '+' then s[1..] else s }

  function ParseDigits(digits: string): Option<nat> {
    if digits == "" || exists k | 0 <= k < |digits| :: !IsDigit(digits[k]) then None
    else if DigitsValue(digits) > WORD_MAX then None
    else Some(DigitsValue(digits))
  }

  // A machine word in decimal, as the standard library reads one: an optional plus, then digits.
  function ParseHops(s: string): Option<nat> { ParseDigits(Unsigned(s)) }

  lemma {:induction false} DecimalReads(n: nat)
    ensures Decimal(n) != "" && (forall k | 0 <= k < |Decimal(n)| :: IsDigit(Decimal(n)[k]))
    ensures DigitsValue(Decimal(n)) == n
  {
    var lead := if n < 10 then "" else Decimal(n / 10);
    if n >= 10 {
      DecimalReads(n / 10);
    }
    assert Decimal(n) == lead + [DigitChar(n % 10)];
    assert Decimal(n)[..|Decimal(n)| - 1] == lead;
  }

  lemma HopsReadBack(n: nat)
    requires n <= WORD_MAX
    ensures ParseHops(Decimal(n)) == Some(n)
  {
    DecimalReads(n);
    assert IsDigit(Decimal(n)[0]);
  }

  // ---- reading ----

  datatype Why =
    | NotHops
    | HasArguments
    | NotRoot
    | RefusedRule
    | NotAPlace(word: string)
    | NotAnIri(text: string)
    | NotALine

  datatype Line = Hops(hops: nat) | Adds(rule: Rule)

  predicate IsKind(word: string) { word == "exact" || word == "prefix" || word == "template" }

  predicate HasEquals(rest: seq<string>) { exists k | 0 <= k < |rest| :: '=' in rest[k] }

  function TemplateStated(from: string, to: string): Stated {
    Stated(Exact, from, to, Root, true, None, [], [])
  }

  function TemplateRule(from: string, to: string): Rule {
    Built(TemplateStated(from, to))
  }

  // What one line says, by the first form it has.
  function ParseLine(fields: seq<string>, valid: string -> bool): Result<Line, Why> {
    if |fields| == 2 && fields[0] == "max-hops" then
      match ParseHops(fields[1])
      case None => Err(NotHops)
      case Some(n) => Ok(Hops(n))
    else if |fields| < 3 || !IsKind(fields[0]) then Err(NotALine)
    else
      var from, to, rest := fields[1], fields[2], fields[3..];
      if HasEquals(rest) then Err(HasArguments)
      else if fields[0] == "template" then
        if rest != ["root"] then Err(NotRoot)
        else if !Acceptable(TemplateStated(from, to), valid) then Err(RefusedRule)
        else Ok(Adds(TemplateRule(from, to)))
      else if |rest| > 1 then Err(NotALine)
      else if rest != [] && rest != ["child"] && rest != ["root"] then Err(NotAPlace(rest[0]))
      else if !valid(from) then Err(NotAnIri(from))
      else if !valid(to) then Err(NotAnIri(to))
      else
        Ok(Adds(Rule(if fields[0] == "exact" then Exact else Prefix, from, to,
                     if rest == ["root"] then Root else Child, PLAIN)))
  }

  lemma ParsedIsSound(fields: seq<string>, valid: string -> bool)
    requires ParseLine(fields, valid).Ok?
    ensures ParseLine(fields, valid).value.Adds? ==> Sound(ParseLine(fields, valid).value.rule)
  {
    if ParseLine(fields, valid).value.Adds? && fields[0] == "template" {
      AcceptedIsSound(TemplateStated(fields[1], fields[2]), valid);
    }
  }

  datatype Table = Table(rules: seq<Rule>, maxHops: nat)

  // Where a text is refused, and why.
  datatype Malformed = Malformed(line: nat, why: Why)

  function Take(table: Table, line: Line): Table {
    match line
    case Hops(n) => table.(maxHops := if n == 0 then 1 else n)
    case Adds(rule) => table.(rules := Sorted(table.rules + [rule]))
  }

  function ReadLines(lines: seq<string>, valid: string -> bool): Result<Table, Malformed>
    decreases |lines|
  {
    if lines == [] then Ok(Table([], DEFAULT_MAX_HOPS))
    else
      match ReadLines(lines[..|lines| - 1], valid)
      case Err(e) => Err(e)
      case Ok(table) =>
        var fields := Fields(BeforeHash(lines[|lines| - 1]));
        if fields == [] then Ok(table)
        else
          match ParseLine(fields, valid)
          case Err(why) => Err(Malformed(|lines|, why))
          case Ok(line) => Ok(Take(table, line))
  }

  function ReadTable(text: string, valid: string -> bool): Result<Table, Malformed> {
    ReadLines(Lines(text), valid)
  }

  method ParseTable(text: string, valid: string -> bool) returns (r: Result<AliasTable, Malformed>)
    ensures match ReadTable(text, valid)
            case Err(e) => r == Err(e)
            case Ok(read) =>
              && r.Ok? && fresh(r.value) && r.value.Valid() && r.value.Checked()
              && Table(r.value.rules, r.value.maxHops) == read
  {
    var lines := Lines(text);
    var table := new AliasTable();
    for k := 0 to |lines|
      invariant fresh(table) && table.Valid() && table.Checked()
      invariant ReadLines(lines[..k], valid) == Ok(Table(table.rules, table.maxHops))
    {
      NextLine(lines, valid, k, Table(table.rules, table.maxHops));
      var fields := Fields(BeforeHash(lines[k]));
      if fields != [] {
        var parsed := ParseLine(fields, valid);
        match parsed
        case Err(why) =>
          FirstMalformed(lines, valid, k + 1);
          return Err(Malformed(k + 1, why));
        case Ok(line) =>
          ParsedIsSound(fields, valid);
          TakeLine(table, line);
      }
    }
    assert lines[..|lines|] == lines;
    return Ok(table);
  }

  lemma NextLine(lines: seq<string>, valid: string -> bool, k: nat, table: Table)
    requires k < |lines| && ReadLines(lines[..k], valid) == Ok(table)
    ensures var fields := Fields(BeforeHash(lines[k]));
            ReadLines(lines[..k + 1], valid)
            == if fields == [] then Ok(table)
               else match ParseLine(fields, valid)
                    case Err(why) => Err(Malformed(k + 1, why))
                    case Ok(line) => Ok(Take(table, line))
  {
    assert lines[..k + 1][..k] == lines[..k];
  }

  method TakeLine(table: AliasTable, line: Line)
    requires table.Valid()
    modifies table
    ensures table.Valid() && (old(table.Checked()) && (line.Adds? ==> Sound(line.rule)) ==> table.Checked())
    ensures Table(table.rules, table.maxHops) == Take(Table(old(table.rules), old(table.maxHops)), line)
  {
    match line
    case Hops(n) => table.WithMaxHops(n);
    case Adds(rule) => table.Insert(rule);
  }

  lemma {:induction false} FirstMalformed(lines: seq<string>, valid: string -> bool, k: nat)
    requires k <= |lines| && ReadLines(lines[..k], valid).Err?
    ensures ReadLines(lines, valid) == ReadLines(lines[..k], valid)
    decreases |lines| - k
  {
    if k < |lines| {
      assert lines[..k + 1][..k] == lines[..k];
      FirstMalformed(lines, valid, k + 1);
    } else {
      assert lines[..k] == lines;
    }
  }

  // ---- writing ----

  function VerbWord(verb: Verb): string {
    match verb
    case Source => "Source"
    case Sink => "Sink"
    case Exists => "Exists"
    case Delete => "Delete"
    case Meta => "Meta"
  }

  function ShownValue(value: FixedValue): string {
    match value
    case Value(text) => text
    case Reference(iri) => "<" + iri + ">"
    case ReferenceTemplate(template) => "<" + Render(template) + ">"
    case Capture(name) => "{" + name + "}"
  }

  function FixWords(fixes: seq<FixedArgument>): string {
    if fixes == [] then "" else " " + fixes[0].name + "=" + ShownValue(fixes[0].value) + FixWords(fixes[1..])
  }

  function InputWords(inputs: seq<Input>): string {
    if inputs == [] then "" else " input=" + inputs[0].name + InputWords(inputs[1..])
  }

  function ArgumentWords(request: RequestPart): string {
    (if request.verb.Some? then " verb=" + VerbWord(request.verb.value) else "")
    + FixWords(request.fixes) + InputWords(request.inputs)
  }

  function RuleLine(rule: Rule): string {
    Keyword(rule.Matches()) + (" " + (rule.from + (" " + (rule.to + ((if rule.at == Child then "" else " root")
    + ArgumentWords(rule.request))))))
  }

  function RuleLines(rules: seq<Rule>): seq<string> {
    seq(|rules|, k requires 0 <= k < |rules| => RuleLine(rules[k]))
  }

  function HopsLines(maxHops: nat): seq<string> {
    if maxHops != DEFAULT_MAX_HOPS then ["max-hops " + Decimal(maxHops)] else []
  }

  function TableLines(table: Table): seq<string> { HopsLines(table.maxHops) + RuleLines(table.rules) }

  function Unlines(lines: seq<string>): string {
    if lines == [] then "" else lines[0] + ("\n" + Unlines(lines[1..]))
  }

  function WriteTable(table: Table): string { Unlines(TableLines(table)) }

  method ToText(table: AliasTable) returns (out: string)
    ensures out == WriteTable(Table(table.rules, table.maxHops))
  {
    ghost var head := HopsLines(table.maxHops);
    out := "";
    if table.maxHops != DEFAULT_MAX_HOPS {
      out := out + ("max-hops " + Decimal(table.maxHops) + "\n");
      UnlinesPush([], "max-hops " + Decimal(table.maxHops));
      assert [] + head == head;
    }
    assert head + [] == head;
    for k := 0 to |table.rules|
      invariant out == Unlines(head + RuleLines(table.rules)[..k])
    {
      var line := LineText(table.rules[k]);
      PushLine(head, RuleLines(table.rules), k);
      out := out + (line + "\n");
    }
    assert RuleLines(table.rules)[..|table.rules|] == RuleLines(table.rules);
  }

  method LineText(rule: Rule) returns (line: string)
    ensures line == RuleLine(rule)
  {
    line := Keyword(rule.Matches()) + " " + rule.from + " " + rule.to;
    if rule.at != Child {
      line := line + " root";
    } else {
      assert line == line + "";
    }
    line := line + ArgumentWords(rule.request);
    LineAssembled(rule, line);
  }

  lemma PushLine(head: seq<string>, lines: seq<string>, k: nat)
    requires k < |lines|
    ensures Unlines(head + lines[..k + 1]) == Unlines(head + lines[..k]) + (lines[k] + "\n")
  {
    assert head + lines[..k + 1] == (head + lines[..k]) + [lines[k]];
    UnlinesPush(head + lines[..k], lines[k]);
  }

  lemma LineAssembled(rule: Rule, line: string)
    requires line == Keyword(rule.Matches()) + " " + rule.from + " " + rule.to
             + (if rule.at == Child then "" else " root")
                     + ArgumentWords(rule.request)
    ensures line == RuleLine(rule)
  {
    Nested(Keyword(rule.Matches()), " ", rule.from, rule.to, if rule.at == Child then "" else " root",
           ArgumentWords(rule.request));
  }

  lemma Nested(word: string, space: string, from: string, to: string, at: string, words: string)
    ensures word + space + from + space + to + at + words == word + (space + (from + (space + (to + (at + words)))))
  {
    assert to + at + words == to + (at + words);
    assert from + space + (to + (at + words)) == from + (space + (to + (at + words)));
    assert word + space + (from + (space + (to + (at + words))))
           == word + (space + (from + (space + (to + (at + words)))));
    assert word + space + from + space + to + at + words == word + space + (from + space + (to + at + words));
  }

  lemma {:induction false} UnlinesPush(lines: seq<string>, line: string)
    ensures Unlines(lines + [line]) == Unlines(lines) + (line + "\n")
  {
    if lines == [] {
      assert [] + [line] == [line] && [line][1..] == [];
    } else {
      assert (lines + [line])[1..] == lines[1..] + [line];
      UnlinesPush(lines[1..], line);
    }
  }
}
