// Which lines are read and as what (crates/ikigai-core/src/alias.rs:1016-1109), over every line.

module AliasReadings {
  import opened Wrappers
  import opened Words
  import opened Text
  import opened Grammar
  import opened ContractIris
  import opened AliasRules
  import opened AliasOrder
  import opened AliasTables
  import opened AliasTexts
  import opened AliasLines

  // ---- the words and lines of a text ----

  // The twenty-five characters of the Unicode property White_Space.
  lemma WhiteAre(c: char)
    ensures White(c)
            <==> c as int in {0x9, 0xA, 0xB, 0xC, 0xD, 0x20, 0x85, 0xA0, 0x1680, 0x2000, 0x2001, 0x2002, 0x2003, 0x2004,
                              0x2005, 0x2006, 0x2007, 0x2008, 0x2009, 0x200A, 0x2028, 0x2029, 0x202F, 0x205F, 0x3000}
  {
  }

  // A line ends at a line feed, with or without a carriage return before it.
  lemma LineEnds(line: string, rest: string)
    requires '\n' !in line && '\r' !in line
    ensures Lines(line + ("\n" + rest)) == [line] + Lines(rest)
    ensures Lines(line + ("\r\n" + rest)) == [line] + Lines(rest)
  {
    LineAt(line + ("\n" + rest), line, rest);
    NotReturned(line);
    var returned := line + "\r";
    ReturnThenFeed(line, rest);
    LineAt(line + ("\r\n" + rest), returned, rest);
    assert returned[..|line|] == line;
  }

  lemma NotReturned(line: string)
    requires '\r' !in line
    ensures StripReturn(line) == line
  {
    assert line != "" ==> line[|line| - 1] in line;
  }

  lemma ReturnThenFeed(line: string, rest: string)
    ensures line + ("\r\n" + rest) == line + "\r" + ("\n" + rest)
  {
    assert "\r\n" == "\r" + "\n";
  }

  lemma LineAt(text: string, line: string, rest: string)
    requires '\n' !in line && text == line + ("\n" + rest)
    ensures Lines(text) == [StripReturn(line)] + Lines(rest)
  {
    assert text[..|line|] == line && text[|line|] == '\n' && text[|line| + 1..] == rest;
    FindCharIs(text, '\n', |line|);
  }

  // ---- hop counts ----

  predicate AllDigits(s: string) { s != "" && forall k | 0 <= k < |s| :: '0' <= s[k] <= '9' }

  // Digit after digit, each ten times less than the one before.
  function Value(s: string): nat
    requires forall k | 0 <= k < |s| :: '0' <= s[k] <= '9'
  {
    if s == "" then 0
    else
      var digit: nat := s[0] as int - '0' as int;
      digit * Pow10(|s| - 1) + Value(s[1..])
  }

  function Pow10(n: nat): nat { if n == 0 then 1 else 10 * Pow10(n - 1) }

  lemma {:induction false} ValueLast(s: string, c: char)
    requires (forall k | 0 <= k < |s| :: '0' <= s[k] <= '9') && '0' <= c <= '9'
    ensures Value(s + [c]) == 10 * Value(s) + (c as int - '0' as int)
  {
    var all := s + [c];
    if s == "" {
      assert all == [c] && all[1..] == "" && Value("") == 0 && Pow10(0) == 1;
    } else {
      assert all[1..] == s[1..] + [c];
      ValueLast(s[1..], c);
      Tenfold(s[0] as int - '0' as int, Pow10(|s| - 1), Value(s[1..]));
      assert Pow10(|s|) == 10 * Pow10(|s| - 1);
    }
  }

  lemma Tenfold(d: nat, power: nat, rest: nat)
    ensures d * (10 * power) + 10 * rest == 10 * (d * power + rest)
  {
  }

  lemma {:induction false} DigitsAre(s: string)
    requires forall k | 0 <= k < |s| :: '0' <= s[k] <= '9'
    ensures DigitsValue(s) == Value(s)
    decreases |s|
  {
    if s != "" {
      var front, c := s[..|s| - 1], s[|s| - 1];
      assert s == front + [c];
      DigitsAre(front);
      ValueLast(front, c);
    }
  }

  lemma UnsignedIs(s: string)
    ensures s == Unsigned(s) || s == "+" + Unsigned(s)
  {
    if s != "" && s[0] == '+' {
      assert [s[0]] == "+";
      assert s == [s[0]] + s[1..];
    }
  }

  lemma UnsignedOf(s: string, digits: string)
    requires AllDigits(digits) && (s == digits || s == "+" + digits)
    ensures digits == Unsigned(s)
  {
    assert ("+" + digits)[1..] == digits && ("+" + digits)[0] == '+';
    assert '0' <= digits[0];
  }

  lemma ParseHopsIs(s: string)
    ensures ParseHops(s).Some? <==> AllDigits(Unsigned(s)) && Value(Unsigned(s)) <= WORD_MAX
    ensures ParseHops(s).Some? ==> ParseHops(s).value == Value(Unsigned(s))
  {
    var digits := Unsigned(s);
    if ParseHops(s).Some? {
      assert forall k | 0 <= k < |digits| :: IsDigit(digits[k]);
    }
    if AllDigits(digits) {
      assert forall k | 0 <= k < |digits| :: IsDigit(digits[k]);
      DigitsAre(digits);
    }
  }

  // A hop count is digits, with or without a plus, that stand for a machine word.
  lemma ParseHopsIff(s: string, n: nat)
    ensures ParseHops(s) == Some(n)
            <==> exists digits ::
              (s == digits || s == "+" + digits) && AllDigits(digits) && Value(digits) == n <= WORD_MAX
  {
    ParseHopsIs(s);
    UnsignedIs(s);
    if digits :| (s == digits || s == "+" + digits) && AllDigits(digits) && Value(digits) == n <= WORD_MAX {
      UnsignedOf(s, digits);
    }
  }

  // ---- lines ----

  // Where a rule resolves, as it may be written: nothing is `child`.
  predicate PlaceWritten(rule: Rule, rest: seq<string>) {
    || rest == AtWords(rule.at)
    || (rule.at == Child && rest == ["child"])
  }

  // What the reader accepts of a rule.
  predicate Readable(rule: Rule, valid: string -> bool) {
    if rule.request.template.Some?
    then rule.at == Root && Acceptable(TemplateStated(rule.from, rule.to), valid)
      && rule == TemplateRule(rule.from, rule.to)
    else rule.request == PLAIN && valid(rule.from) && valid(rule.to)
  }

  // Words say a rule exactly when they are its keyword, its two names and where it resolves, and the
  // reader accepts it; and a hop count exactly when they are `max-hops` and one.
  lemma ParseLineIff(fields: seq<string>, valid: string -> bool, rule: Rule)
    ensures ParseLine(fields, valid) == Ok(Adds(rule))
            <==> && Readable(rule, valid) && |fields| >= 3
                 && fields[..3] == [Keyword(rule.Matches()), rule.from, rule.to] && PlaceWritten(rule, fields[3..])
  {
    Keywords();
    if |fields| >= 3 && fields[0] == "template" {
      TemplateLine(fields, valid, rule);
    } else if |fields| >= 3 {
      PlainLine(fields, valid, rule);
    }
  }

  lemma TemplateLine(fields: seq<string>, valid: string -> bool, rule: Rule)
    requires |fields| >= 3 && fields[0] == "template"
    ensures ParseLine(fields, valid) == Ok(Adds(rule))
            <==> && Readable(rule, valid)
                 && fields[..3] == [Keyword(rule.Matches()), rule.from, rule.to] && PlaceWritten(rule, fields[3..])
  {
    TemplateSaid(fields, valid);
    if ParseLine(fields, valid).Ok? {
      TemplateRead(fields, valid);
      if Readable(rule, valid) && fields[..3] == [Keyword(rule.Matches()), rule.from, rule.to] {
        ReadsTemplate(fields, valid, rule);
      }
    } else if Readable(rule, valid) && fields[..3] == [Keyword(rule.Matches()), rule.from, rule.to] {
      ReadsTemplate(fields, valid, rule);
    }
  }

  lemma TemplateRead(fields: seq<string>, valid: string -> bool)
    requires |fields| >= 3 && fields[0] == "template" && fields[3..] == ["root"]
    requires Acceptable(TemplateStated(fields[1], fields[2]), valid)
    ensures var rule := TemplateRule(fields[1], fields[2]);
            && Readable(rule, valid) && fields[..3] == [Keyword(rule.Matches()), rule.from, rule.to]
            && PlaceWritten(rule, fields[3..])
  {
    TemplateShape(fields[1], fields[2], valid);
    Keywords();
    assert fields[..3] == [fields[0], fields[1], fields[2]];
  }

  lemma ReadsTemplate(fields: seq<string>, valid: string -> bool, rule: Rule)
    requires |fields| >= 3 && fields[0] == "template" && Readable(rule, valid)
    requires fields[..3] == [Keyword(rule.Matches()), rule.from, rule.to]
    ensures rule.request.template.Some? && rule == TemplateRule(fields[1], fields[2]) && rule.at == Root
    ensures Acceptable(TemplateStated(fields[1], fields[2]), valid)
  {
    Keywords();
    assert fields[..3][0] == fields[0] && fields[..3][1] == fields[1] && fields[..3][2] == fields[2];
  }

  lemma TemplateSaid(fields: seq<string>, valid: string -> bool)
    requires |fields| >= 3 && fields[0] == "template"
    ensures ParseLine(fields, valid).Ok?
            <==> fields[3..] == ["root"] && Acceptable(TemplateStated(fields[1], fields[2]), valid)
    ensures ParseLine(fields, valid).Ok? ==> ParseLine(fields, valid) == Ok(Adds(TemplateRule(fields[1], fields[2])))
  {
    Keywords();
    PlacesPlain();
  }

  lemma PlainLine(fields: seq<string>, valid: string -> bool, rule: Rule)
    requires |fields| >= 3 && fields[0] != "template"
    ensures ParseLine(fields, valid) == Ok(Adds(rule))
            <==> && Readable(rule, valid)
                 && fields[..3] == [Keyword(rule.Matches()), rule.from, rule.to] && PlaceWritten(rule, fields[3..])
  {
    Keywords();
    PlacesPlain();
    var rest := fields[3..];
    assert |rest| == 1 ==> rest == [rest[0]];
  }

  lemma Keywords()
    ensures Keyword(ExactMatch) == "exact" && Keyword(PrefixMatch) == "prefix" && Keyword(TemplateMatch) == "template"
    ensures "exact"[0] == 'e' && "prefix"[0] == 'p' && "template"[0] == 't' && "max-hops"[0] == 'm'
  {
  }

  lemma PlacesPlain()
    ensures !HasEquals([]) && !HasEquals(["child"]) && !HasEquals(["root"]) && "child"[0] == 'c' && "root"[0] == 'r'
  {
    assert '=' !in "child" && '=' !in "root";
  }

  lemma TemplateShape(from: string, to: string, valid: string -> bool)
    requires Acceptable(TemplateStated(from, to), valid)
    ensures TemplateRule(from, to).request.template.Some? && TemplateRule(from, to).at == Root
    ensures TemplateRule(from, to).from == from && TemplateRule(from, to).to == to
  {
  }

  lemma ParseHopsLineIff(fields: seq<string>, valid: string -> bool, n: nat)
    ensures ParseLine(fields, valid) == Ok(Hops(n))
            <==> |fields| == 2 && fields[0] == "max-hops" && ParseHops(fields[1]) == Some(n)
  {
  }
}
