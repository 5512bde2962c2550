// The line a rule without arguments is written as, word by word (crates/ikigai-core/src/alias.rs:
// 1016-1150), and what it is read as.

module AliasLines {
  import opened Wrappers
  import opened Words
  import opened Text
  import opened Sorting
  import opened Grammar
  import opened ContractIris
  import opened AliasRules
  import opened AliasOrder
  import opened AliasTables
  import opened AliasTexts

  // Text a line can hold as one of its words.
  predicate IsWord(s: string) {
    s != "" && forall k | 0 <= k < |s| :: !White(s[k]) && s[k] != '#'
  }

  // A rule with a line: no arguments, words for names, and accepted when it is read.
  predicate HasLine(rule: Rule, valid: string -> bool) {
    && IsWord(rule.from) && IsWord(rule.to)
    && if rule.request.template.Some?
       then Acceptable(TemplateStated(rule.from, rule.to), valid) && rule == TemplateRule(rule.from, rule.to)
       else valid(rule.from) && valid(rule.to) && rule.request == PLAIN
  }

  // ---- words ----

  lemma {:induction false} WordEndIs(word: string, rest: string)
    requires IsWord(word) || word == ""
    requires rest == "" || White(rest[0])
    ensures WordEnd(word + rest) == |word|
  {
    if word == "" {
      assert "" + rest == rest;
    } else {
      var s := word + rest;
      assert s[0] == word[0] && s[1..] == word[1..] + rest;
      assert forall k | 0 <= k < |word| - 1 :: word[1..][k] == word[k + 1];
      WordEndIs(word[1..], rest);
    }
  }

  // A word at the front is the first of the words.
  lemma WordFirst(word: string, rest: string)
    requires IsWord(word) && (rest == "" || White(rest[0]))
    ensures Fields(word + rest) == [word] + Fields(rest)
  {
    var s := word + rest;
    WordEndIs(word, rest);
    assert s[0] == word[0] && s[..|word|] == word && s[|word|..] == rest;
  }

  lemma SpaceSkipped(rest: string)
    ensures Fields(" " + rest) == Fields(rest)
  {
    assert (" " + rest)[1..] == rest;
  }

  lemma KeywordIsWord(kind: MatchKind)
    ensures IsWord(Keyword(kind)) && IsKind(Keyword(kind))
  {
  }

  function AtWords(at: ResolveAt): seq<string> { if at == Child then [] else ["root"] }
  function AtText(at: ResolveAt): string { if at == Child then "" else " root" }

  lemma AtFields(at: ResolveAt)
    ensures Fields(AtText(at)) == AtWords(at)
  {
    if at != Child {
      SpaceSkipped("root");
      WordFirst("root", "");
      assert " " + "root" == " root" && "root" + "" == "root" && ["root"] + [] == ["root"];
    }
  }

  lemma NextField(word: string, tail: string)
    requires IsWord(word) && (tail == "" || White(tail[0]))
    ensures Fields(" " + (word + tail)) == [word] + Fields(tail)
  {
    WordFirst(word, tail);
    SpaceSkipped(word + tail);
  }

  lemma LineFields(word: string, from: string, to: string, tail: string)
    requires IsWord(word) && IsWord(from) && IsWord(to) && (tail == "" || White(tail[0]))
    ensures Fields(word + (" " + (from + (" " + (to + tail))))) == [word, from, to] + Fields(tail)
  {
    var third := " " + (to + tail);
    var second := " " + (from + third);
    NextField(to, tail);
    NextField(from, third);
    WordFirst(word, second);
    ThreeAndMore(word, from, to, Fields(tail));
  }

  lemma ThreeAndMore(a: string, b: string, c: string, rest: seq<string>)
    ensures [a] + ([b] + ([c] + rest)) == [a, b, c] + rest
  {
  }

  lemma RuleFields(rule: Rule, valid: string -> bool)
    requires HasLine(rule, valid)
    ensures RuleLine(rule) == Keyword(rule.Matches()) + (" " + (rule.from + (" " + (rule.to + AtText(rule.at)))))
    ensures Fields(RuleLine(rule)) == [Keyword(rule.Matches()), rule.from, rule.to] + AtWords(rule.at)
  {
    assert ArgumentWords(rule.request) == "";
    assert AtText(rule.at) + "" == AtText(rule.at);
    KeywordIsWord(rule.Matches());
    AtFields(rule.at);
    LineFields(Keyword(rule.Matches()), rule.from, rule.to, AtText(rule.at));
  }

  predicate OneLine(s: string) { '\n' !in s && '#' !in s && '\r' !in s }

  lemma WordsOneLine(s: string)
    requires IsWord(s)
    ensures OneLine(s)
  {
  }

  lemma JoinedOneLine(a: string, b: string)
    requires OneLine(a) && OneLine(b)
    ensures OneLine(a + b)
  {
  }

  lemma RuleOneLine(rule: Rule, valid: string -> bool)
    requires HasLine(rule, valid)
    ensures OneLine(RuleLine(rule))
  {
    RuleFields(rule, valid);
    KeywordIsWord(rule.Matches());
    WordsOneLine(Keyword(rule.Matches()));
    JoinedOneLine(rule.to, AtText(rule.at));
    JoinedOneLine(" ", rule.to + AtText(rule.at));
    JoinedOneLine(rule.from, " " + (rule.to + AtText(rule.at)));
    JoinedOneLine(" ", rule.from + (" " + (rule.to + AtText(rule.at))));
  }

  lemma FieldsParse(rule: Rule, valid: string -> bool)
    requires HasLine(rule, valid)
    ensures ParseLine([Keyword(rule.Matches()), rule.from, rule.to] + AtWords(rule.at), valid) == Ok(Adds(rule))
  {
    var fields := [Keyword(rule.Matches()), rule.from, rule.to] + AtWords(rule.at);
    assert fields[3..] == AtWords(rule.at) && '=' !in "root";
    assert fields[0] == Keyword(rule.Matches()) && fields[1] == rule.from && fields[2] == rule.to;
  }

  lemma DecimalIsWord(n: nat)
    ensures IsWord(Decimal(n))
  {
    DecimalReads(n);
    var digits := Decimal(n);
    forall k | 0 <= k < |digits| ensures !White(digits[k]) && digits[k] != '#' {
      assert IsDigit(digits[k]);
    }
  }

  lemma HopsFields(digits: string)
    requires IsWord(digits)
    ensures OneLine("max-hops " + digits)
    ensures Fields(BeforeHash("max-hops " + digits)) == ["max-hops", digits]
  {
    WordFirst("max-hops", " " + digits);
    SpaceSkipped(digits);
    WordFirst(digits, "");
    assert digits + "" == digits && "max-hops" + (" " + digits) == "max-hops " + digits;
    assert ["max-hops"] + ([digits] + []) == ["max-hops", digits];
  }

  lemma HopsLineReadsBack(n: nat, valid: string -> bool)
    requires n <= WORD_MAX
    ensures ParseLine(["max-hops", Decimal(n)], valid) == Ok(Hops(n))
  {
    HopsReadBack(n);
  }

  lemma HeadOneLine(maxHops: nat)
    requires maxHops != DEFAULT_MAX_HOPS
    ensures OneLine(HopsLines(maxHops)[0])
  {
    DecimalIsWord(maxHops);
    HopsFields(Decimal(maxHops));
  }

  lemma HeadReads(maxHops: nat, valid: string -> bool)
    requires 0 < maxHops <= WORD_MAX
    ensures ReadLines(HopsLines(maxHops), valid) == Ok(Table([], maxHops))
  {
    if maxHops != DEFAULT_MAX_HOPS {
      DecimalIsWord(maxHops);
      HopsFields(Decimal(maxHops));
      HopsLineReadsBack(maxHops, valid);
      var lines := HopsLines(maxHops);
      assert lines[..0] == [];
      assert ReadLines(lines[..0], valid) == Ok(Table([], DEFAULT_MAX_HOPS));
    }
  }
}
