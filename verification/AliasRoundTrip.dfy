// Which alias tables come back from their line form as they were (crates/ikigai-core/src/alias.rs:
// 1016-1150): exactly those every rule of which has a line.

module AliasRoundTrip {
  import opened Wrappers
  import opened Words
  import opened Text
  import opened Sorting
  import opened Grammar
  import opened ContractIris
  import opened AliasRules
  import opened AliasOrder
  import opened AliasTables
  import opened AliasTexts
  import opened AliasLines
  import opened AliasHalfRead

  predicate AllHaveLines(rules: seq<Rule>, valid: string -> bool) {
    forall k | 0 <= k < |rules| :: HasLine(rules[k], valid)
  }

  // ---- what was read has a line ----

  lemma {:induction false} FieldsAreWords(s: string)
    requires '#' !in s
    ensures forall k | 0 <= k < |Fields(s)| :: IsWord(Fields(s)[k])
    decreases |s|
  {
    if s != "" {
      if White(s[0]) {
        FieldsAreWords(s[1..]);
      } else {
        var n := WordEnd(s);
        assert n > 0;
        FieldsAreWords(s[n..]);
        forall k | 0 <= k < |Fields(s)| ensures IsWord(Fields(s)[k]) {
          assert k > 0 ==> Fields(s)[k] == Fields(s[n..])[k - 1];
        }
      }
    }
  }

  lemma ReadRuleHasLine(line: string, valid: string -> bool, rule: Rule)
    requires Fields(BeforeHash(line)) != [] && ParseLine(Fields(BeforeHash(line)), valid) == Ok(Adds(rule))
    ensures HasLine(rule, valid)
  {
    var fields := Fields(BeforeHash(line));
    FieldsAreWords(BeforeHash(line));
    assert IsWord(fields[1]) && IsWord(fields[2]);
  }

  lemma {:induction false} ReadHasLines(lines: seq<string>, valid: string -> bool)
    requires ReadLines(lines, valid).Ok?
    ensures forall rule | rule in ReadLines(lines, valid).value.rules :: HasLine(rule, valid)
    decreases |lines|
  {
    if lines != [] {
      var front, line := lines[..|lines| - 1], lines[|lines| - 1];
      ReadHasLines(front, valid);
      var fields := Fields(BeforeHash(line));
      if fields != [] && ParseLine(fields, valid).value.Adds? {
        var rule := ParseLine(fields, valid).value.rule;
        ReadRuleHasLine(line, valid, rule);
        StableSortSorts(ReadLines(front, valid).value.rules + [rule], RuleKey);
      }
    }
  }

  // A rule with a line has no arguments to lose.
  lemma LineIsWhole(rule: Rule, valid: string -> bool)
    requires HasLine(rule, valid)
    ensures Half(rule) == rule && !Argued(rule.request) && Written(rule, valid) && '\n' !in RuleLine(rule)
  {
    RuleOneLine(rule, valid);
  }

  lemma WrittenReads(table: Table, valid: string -> bool)
    requires InOrder(table.rules) && 0 < table.maxHops <= WORD_MAX && AllHaveLines(table.rules, valid)
    ensures ReadTable(WriteTable(table), valid) == Ok(table)
  {
    forall rule | rule in table.rules
      ensures Half(rule) == rule && !Argued(rule.request) && Written(rule, valid) && '\n' !in RuleLine(rule)
    {
      LineIsWhole(rule, valid);
    }
    HalfReadTable(table, valid);
    assert Halves(table.rules) == table.rules;
  }

  // A table written out and read comes back as it was exactly when every one of its rules has a
  // line: plain or a template without arguments, its names free of `#` and of whitespace, and
  // accepted by the reader.
  lemma RoundTripIff(table: Table, valid: string -> bool)
    requires InOrder(table.rules) && 0 < table.maxHops <= WORD_MAX
    ensures ReadTable(WriteTable(table), valid) == Ok(table) <==> AllHaveLines(table.rules, valid)
  {
    if AllHaveLines(table.rules, valid) {
      WrittenReads(table, valid);
    }
    if ReadTable(WriteTable(table), valid) == Ok(table) {
      ReadHasLines(Lines(WriteTable(table)), valid);
    }
  }

  // So whatever was read can be written and read again.
  lemma ReadTableRoundTrips(text: string, valid: string -> bool)
    requires ReadTable(text, valid).Ok?
    ensures ReadTable(WriteTable(ReadTable(text, valid).value), valid) == ReadTable(text, valid)
  {
    var table := ReadTable(text, valid).value;
    ReadHasLines(Lines(text), valid);
    ReadInOrder(Lines(text), valid);
    RoundTripIff(table, valid);
  }

  lemma ReadInOrder(lines: seq<string>, valid: string -> bool)
    requires ReadLines(lines, valid).Ok?
    ensures InOrder(ReadLines(lines, valid).value.rules) && 0 < ReadLines(lines, valid).value.maxHops <= WORD_MAX
  {
    ReadLinesIs(lines, valid);
    StableSortSorts(Stating(lines, valid), RuleKey);
    HopsInRange(lines, valid);
  }

  lemma {:induction false} HopsInRange(lines: seq<string>, valid: string -> bool)
    ensures 0 < HopsOf(lines, valid, DEFAULT_MAX_HOPS) <= WORD_MAX
    decreases |lines|
  {
    if lines != [] {
      HopsInRange(lines[..|lines| - 1], valid);
    }
  }
}
