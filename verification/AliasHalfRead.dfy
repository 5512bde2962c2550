// What becomes of a rule with arguments when its line is read (crates/ikigai-core/src/alias.rs:
// 1016-1150): exactly when it is refused, and exactly when half of it is read.

module AliasHalfRead {
  import opened Wrappers
  import opened Words
  import opened Text
  import opened Sorting
  import opened Grammar
  import opened ContractIris
  import opened AliasRules
  import opened AliasOrder
  import opened AliasTables
  import opened AliasTexts
  import opened AliasLines

  predicate Argued(request: RequestPart) { request.verb.Some? || request.fixes != [] || request.inputs != [] }

  // The rule without its arguments.
  function Half(rule: Rule): Rule {
    rule.(request := if rule.request.template.Some?
                     then RequestPart(rule.request.template, rule.request.target, None, [], [])
                     else PLAIN)
  }

  // A `#` with nothing but white space before it.
  predicate HashLed(name: string) { '#' in name && forall c | c in BeforeHash(name) :: White(c) }

  // Whether the arguments are lost: they start with a name led by a `#`.
  predicate HalfRead(request: RequestPart) {
    request.verb.None? && request.fixes != [] && HashLed(request.fixes[0].name)
  }

  // A rule that has a line once its arguments are gone, and what the check leaves of those it has.
  predicate Written(rule: Rule, valid: string -> bool) {
    && HasLine(Half(rule), valid)
    && (Argued(rule.request) ==> rule.at.Root?)
    && forall k | 0 <= k < |rule.request.fixes| :: IriSafe(rule.request.fixes[k].name)
  }

  // Every accepted rule whose names a line can hold is such a rule.
  lemma AcceptedIsWritten(rule: Stated, valid: string -> bool)
    requires Acceptable(rule, valid) && IsWord(rule.from) && IsWord(rule.to)
    requires rule.template || (valid(rule.from) && valid(rule.to))
    ensures Written(Built(rule), valid)
  {
    if rule.Named() {
      FixesSafe(rule, valid);
      if rule.template {
        HalfIsTemplate(rule, valid);
      }
    }
  }

  lemma HalfIsTemplate(rule: Stated, valid: string -> bool)
    requires Acceptable(rule, valid) && rule.template
    ensures Half(Built(rule)) == TemplateRule(rule.from, rule.to)
    ensures Acceptable(TemplateStated(rule.from, rule.to), valid)
  {
    assert Vars(rule) == Vars(TemplateStated(rule.from, rule.to));
  }

  lemma FixesSafe(rule: Stated, valid: string -> bool)
    requires Acceptable(rule, valid) && rule.Named()
    ensures forall k | 0 <= k < |PartOf(rule).fixes| :: IriSafe(PartOf(rule).fixes[k].name)
  {
    StableSortSorts(rule.fixes, ArgumentKey);
    var fixes := PartOf(rule).fixes;
    forall k | 0 <= k < |fixes| ensures IriSafe(fixes[k].name) {
      assert fixes[k] in fixes && fixes[k] in rule.fixes;
    }
  }

  // ---- the words of a line ----

  lemma {:induction false} WordEndStops(a: string, rest: string)
    requires rest == "" || White(rest[0])
    ensures WordEnd(a + rest) == WordEnd(a)
  {
    if a == "" {
      assert a + rest == rest;
    } else if !White(a[0]) {
      assert (a + rest)[1..] == a[1..] + rest;
      WordEndStops(a[1..], rest);
    }
  }

  lemma {:induction false} FieldsJoin(a: string, rest: string)
    requires rest == "" || White(rest[0])
    ensures Fields(a + rest) == Fields(a) + Fields(rest)
    decreases |a|
  {
    if a == "" {
      assert a + rest == rest;
    } else if White(a[0]) {
      assert (a + rest)[1..] == a[1..] + rest;
      FieldsJoin(a[1..], rest);
    } else {
      assert WordEnd(a) > 0;
      FieldsJoin(a[WordEnd(a)..], rest);
      WordJoins(a, rest);
    }
  }

  lemma {:induction false} WordJoins(a: string, rest: string)
    requires a != "" && !White(a[0]) && (rest == "" || White(rest[0]))
    requires Fields(a[WordEnd(a)..] + rest) == Fields(a[WordEnd(a)..]) + Fields(rest)
    ensures Fields(a + rest) == Fields(a) + Fields(rest)
  {
    var s, n := a + rest, WordEnd(a);
    var tail := a[n..];
    WordEndStops(a, rest);
    assert s[..n] == a[..n] && s[n..] == tail + rest;
    FieldsWord(s, n, tail + rest);
    FieldsWord(a, n, tail);
    LinesAssoc(a[..n], Fields(tail), Fields(rest));
  }

  lemma FieldsWord(s: string, n: nat, tail: string)
    requires s != "" && !White(s[0]) && n == WordEnd(s) && tail == s[n..]
    ensures Fields(s) == [s[..n]] + Fields(tail)
  {
  }

  ghost predicate InFields(fields: seq<string>, c: char) { exists k | 0 <= k < |fields| :: c in fields[k] }

  // The words hold what is not white space, and no more.
  lemma {:induction false} FieldsHold(s: string, c: char)
    ensures InFields(Fields(s), c) <==> c in s && !White(c)
    decreases |s|
  {
    if s != "" {
      if White(s[0]) {
        FieldsHold(s[1..], c);
        assert s == [s[0]] + s[1..];
      } else {
        var n := WordEnd(s);
        assert n > 0;
        FieldsHold(s[n..], c);
        InFieldsCons(s[..n], Fields(s[n..]), c);
        assert s == s[..n] + s[n..];
      }
    }
  }

  lemma InFieldsCons(first: string, rest: seq<string>, c: char)
    ensures InFields([first] + rest, c) <==> c in first || InFields(rest, c)
  {
    var all := [first] + rest;
    if c in first {
      assert c in all[0];
    }
    if k :| 0 <= k < |rest| && c in rest[k] {
      assert c in all[k + 1];
    }
  }

  lemma NoFields(s: string)
    ensures Fields(s) == [] <==> forall c | c in s :: White(c)
  {
    forall c ensures InFields(Fields(s), c) <==> c in s && !White(c) {
      FieldsHold(s, c);
    }
    if Fields(s) != [] {
      FirstField(s);
      assert InFields(Fields(s), Fields(s)[0][0]);
    }
  }

  lemma {:induction false} FirstField(s: string)
    requires Fields(s) != []
    ensures Fields(s)[0] != ""
    decreases |s|
  {
    if White(s[0]) {
      FirstField(s[1..]);
    } else {
      assert WordEnd(s) > 0;
    }
  }

  // ---- the first line of a text, up to its comment ----

  function FirstLine(s: string): string {
    match FindChar(s, '\n')
    case None => StripReturn(s)
    case Some(i) => StripReturn(s[..i])
  }

  // What is read of it.
  function Cut(s: string): string { BeforeHash(FirstLine(s)) }

  lemma {:induction false} FindCharAfter(a: string, s: string, c: char)
    requires c !in a
    ensures FindChar(a + s, c) == match FindChar(s, c) case None => None case Some(i) => Some(|a| + i)
  {
    if a == "" {
      assert a + s == s;
    } else {
      assert (a + s)[1..] == a[1..] + s;
      assert forall x | x in a[1..] :: x in a;
      FindCharAfter(a[1..], s, c);
    }
  }

  lemma FirstLineAfter(a: string, s: string)
    requires OneLine(a)
    ensures FirstLine(a + s) == a + FirstLine(s)
  {
    FindCharAfter(a, s, '\n');
    var upto := match FindChar(s, '\n') case None => s case Some(i) => s[..i];
    var all := match FindChar(a + s, '\n') case None => a + s case Some(i) => (a + s)[..i];
    assert all == a + upto;
    if upto == "" {
      assert all == a && (a != "" ==> a[|a| - 1] in a);
    } else {
      assert all[|all| - 1] == upto[|upto| - 1];
      assert all[..|all| - 1] == a + upto[..|upto| - 1];
    }
  }

  // Text without a line end or a `#` is read as it stands.
  lemma CutAfter(a: string, s: string)
    requires OneLine(a)
    ensures Cut(a + s) == a + Cut(s)
  {
    FirstLineAfter(a, s);
    FindCharAfter(a, FirstLine(s), '#');
    var rest := FirstLine(s);
    match FindChar(rest, '#')
    case None =>
    case Some(i) => assert (a + rest)[..|a| + i] == a + rest[..i];
  }

  lemma CutAtHash(s: string)
    ensures Cut("#" + s) == ""
  {
    var text := "#" + s;
    var line := FirstLine(text);
    assert line != "" && line[0] == '#' by {
      assert text[0] == '#';
      assert FindChar(text, '\n').Some? ==> FindChar(text, '\n').value > 0;
    }
    FindCharIs(line, '#', 0);
  }

  // ---- a rule's line ----

  // The word its arguments start with.
  function Leading(request: RequestPart): string {
    if request.verb.Some? then "verb" else if request.fixes != [] then request.fixes[0].name else "input"
  }

  lemma ArgumentTail(request: RequestPart) returns (more: string)
    requires Argued(request)
    ensures ArgumentWords(request) == " " + (Leading(request) + ("=" + more))
  {
    var verb := if request.verb.Some? then " verb=" + VerbWord(request.verb.value) else "";
    var fixes, inputs := FixWords(request.fixes), InputWords(request.inputs);
    assert ArgumentWords(request) == verb + fixes + inputs;
    if request.verb.Some? {
      var shown := VerbWord(request.verb.value);
      more := shown + fixes + inputs;
      assert " verb=" == " " + "verb" + "=";
      Regroup(" ", "verb", "=", shown, fixes, inputs);
    } else if request.fixes != [] {
      var name, shown, later := request.fixes[0].name, ShownValue(request.fixes[0].value), FixWords(request.fixes[1..]);
      more := shown + later + inputs;
      assert verb + fixes == fixes == " " + name + "=" + shown + later;
      Regroup(" ", name, "=", shown, later, inputs);
    } else {
      var name, later := request.inputs[0].name, InputWords(request.inputs[1..]);
      more := name + later + "";
      assert verb + fixes == "" && inputs == " input=" + name + later;
      assert " input=" == " " + "input" + "=";
      Regroup(" ", "input", "=", name, later, "");
      assert inputs + "" == inputs == "" + inputs;
    }
  }

  lemma Regroup(space: string, word: string, equals: string, shown: string, later: string, inputs: string)
    ensures space + word + equals + shown + later + inputs == space + (word + (equals + (shown + later + inputs)))
  {
  }

  // The line is the line without arguments, and the arguments.
  lemma LineSplits(rule: Rule, valid: string -> bool)
    requires HasLine(Half(rule), valid)
    ensures RuleLine(rule) == RuleLine(Half(rule)) + ArgumentWords(rule.request)
  {
    RuleFields(Half(rule), valid);
    Regrouped(Keyword(rule.Matches()), rule.from, rule.to, AtText(rule.at), ArgumentWords(rule.request));
  }

  lemma Regrouped(word: string, from: string, to: string, at: string, tail: string)
    ensures word + (" " + (from + (" " + (to + (at + tail))))) == word + (" " + (from + (" " + (to + at)))) + tail
  {
    assert to + (at + tail) == (to + at) + tail;
    assert " " + ((to + at) + tail) == (" " + (to + at)) + tail;
    assert from + ((" " + (to + at)) + tail) == (from + (" " + (to + at))) + tail;
    assert " " + ((from + (" " + (to + at))) + tail) == (" " + (from + (" " + (to + at)))) + tail;
  }

  // What is read of the arguments: a word with an equals sign, or what stands before a `#`.
  lemma ArgumentsCut(word: string, tail: string)
    requires IriSafe(word)
    ensures '#' in word ==> Cut(" " + (word + tail)) == " " + BeforeHash(word)
    ensures '#' !in word ==> Cut(" " + (word + tail)) == " " + (word + Cut(tail))
  {
    CutAfter(" ", word + tail);
    SafeOneLine(word);
    if '#' in word {
      CutInWord(word, tail);
    } else {
      CutAfter(word, tail);
    }
  }

  lemma CutInWord(word: string, tail: string)
    requires '#' in word && '\n' !in word && '\r' !in word
    ensures Cut(word + tail) == BeforeHash(word)
  {
    var i := FindChar(word, '#').value;
    var lead, after := word[..i], word[i + 1..] + tail;
    assert OneLine(lead) by {
      assert forall c | c in lead :: c in word;
    }
    assert word == lead + ("#" + word[i + 1..]);
    JoinThree(lead, "#", word[i + 1..], tail);
    CutAfter(lead, "#" + after);
    CutAtHash(after);
    assert lead + "" == lead;
  }

  lemma JoinThree(a: string, b: string, c: string, d: string)
    ensures a + (b + c) + d == a + (b + (c + d))
  {
  }

  lemma SafeOneLine(word: string)
    requires IriSafe(word)
    ensures '\n' !in word && '\r' !in word
  {
    assert Forbidden('\n') && Forbidden('\r');
  }

  // What the line's words say: the rule without its arguments when it had none or they are lost; a
  // refusal for its arguments when an equals sign is read; and another refusal otherwise.
  lemma WordsSay(rule: Rule, words: seq<string>, valid: string -> bool)
    requires HasLine(Half(rule), valid) && (words != [] ==> rule.at.Root?)
    ensures var said := ParseLine([Keyword(rule.Matches()), rule.from, rule.to] + AtWords(rule.at) + words, valid);
            && (said == Ok(Adds(Half(rule))) <==> words == [])
            && (said.Err? <==> words != [])
            && (said == Err(HasArguments) <==> InFields(words, '='))
  {
    var half := Half(rule);
    FieldsParse(half, valid);
    var fields := [Keyword(rule.Matches()), rule.from, rule.to] + AtWords(rule.at) + words;
    var rest := fields[3..];
    assert rest == AtWords(rule.at) + words && '=' !in "root";
    if words == [] {
      assert fields == [Keyword(half.Matches()), half.from, half.to] + AtWords(half.at);
    } else {
      assert rest == ["root"] + words;
      InFieldsCons("root", words, '=');
      KeywordIsWord(rule.Matches());
      assert HasEquals(rest) <==> InFields(words, '=');
      assert |rest| > 1 && fields[0] == Keyword(rule.Matches());
    }
  }

  // What is read of the arguments, as words.
  ghost function ArgumentFields(request: RequestPart): seq<string> { Fields(Cut(ArgumentWords(request))) }

  lemma ArgumentsRead(request: RequestPart)
    requires IriSafe(Leading(request))
    ensures ArgumentFields(request) == [] <==> !Argued(request) || HalfRead(request)
    ensures InFields(ArgumentFields(request), '=')
            <==> Argued(request) && ('#' in Leading(request) ==> '=' in BeforeHash(Leading(request)))
    ensures Cut(ArgumentWords(request)) == "" || White(Cut(ArgumentWords(request))[0])
  {
    if Argued(request) {
      var word := Leading(request);
      var more := ArgumentTail(request);
      ArgumentsCut(word, "=" + more);
      CutAfter("=", more);
      NoFields(Cut(ArgumentWords(request)));
      FieldsHold(Cut(ArgumentWords(request)), '=');
      WordRead(word, Cut(more));
      LeadIsHash(request);
    } else {
      assert ArgumentWords(request) == "" && Cut("") == "";
    }
  }

  lemma LeadIsHash(request: RequestPart)
    requires Argued(request)
    ensures HashLed(Leading(request)) <==> HalfRead(request)
  {
  }

  // A word before an equals sign has one to read; what stands before a `#` may have none.
  lemma WordRead(word: string, rest: string)
    ensures '=' in " " + (word + ("=" + rest)) && !White('=')
    ensures '=' in " " + BeforeHash(word) <==> '=' in BeforeHash(word)
    ensures (forall c | c in " " + BeforeHash(word) :: White(c)) <==> forall c | c in BeforeHash(word) :: White(c)
  {
    assert White(' ');
    var s := " " + BeforeHash(word);
    assert forall c | c in BeforeHash(word) :: c in s;
    assert (" " + (word + ("=" + rest)))[1 + |word|] == '=';
  }

  // What is read of a rule's line.
  lemma LineRead(rule: Rule, valid: string -> bool)
    requires Written(rule, valid)
    ensures Fields(Cut(RuleLine(rule)))
         == [Keyword(rule.Matches()), rule.from, rule.to] + AtWords(rule.at) + ArgumentFields(rule.request)
  {
    var half, words := Half(rule), ArgumentWords(rule.request);
    LineSplits(rule, valid);
    RuleOneLine(half, valid);
    CutAfter(RuleLine(half), words);
    RuleFields(half, valid);
    LeadingSafe(rule, valid);
    ArgumentsRead(rule.request);
    FieldsJoin(RuleLine(half), Cut(words));
  }

  lemma LeadingSafe(rule: Rule, valid: string -> bool)
    requires Written(rule, valid)
    ensures IriSafe(Leading(rule.request))
  {
  }

  // A rule whose names a line can hold is written as a line that reads as a rule exactly when it has
  // no arguments, or they start with a fixed name led by a `#` and so are lost; and what is read is
  // then the rule without them. Otherwise the line is refused, and refused for its arguments exactly
  // when no `#` comes before the first equals sign of them.
  lemma HalfReadIff(rule: Rule, valid: string -> bool)
    requires Written(rule, valid)
    ensures var line := FirstLine(RuleLine(rule));
            var fields := Fields(BeforeHash(line));
            && fields != []
            && (ParseLine(fields, valid).Ok? <==> !Argued(rule.request) || HalfRead(rule.request))
            && (ParseLine(fields, valid).Ok? ==> ParseLine(fields, valid) == Ok(Adds(Half(rule))))
            && (ParseLine(fields, valid) == Err(HasArguments)
                <==> Argued(rule.request)
                     && ('#' in Leading(rule.request) ==> '=' in BeforeHash(Leading(rule.request))))
  {
    LineRead(rule, valid);
    LeadingSafe(rule, valid);
    ArgumentsRead(rule.request);
    WordsSay(rule, ArgumentFields(rule.request), valid);
  }

  // The check lets such names through, with the `#` first or behind white space that is not ASCII.
  lemma HashNamesPass(rest: string)
    requires IriSafe(rest)
    ensures GoodName("#" + rest) && HashLed("#" + rest)
    ensures var spaced := [0xA0 as char] + ("#" + rest); GoodName(spaced) && HashLed(spaced)
  {
    var name := "#" + rest;
    var spaced := [0xA0 as char] + name;
    assert name[0] == '#' && spaced[1] == '#';
    FindCharIs(name, '#', 0);
    FindCharIs(spaced, '#', 1);
    assert forall k | 1 <= k < |name| :: name[k] == rest[k - 1];
    assert forall k | 2 <= k < |spaced| :: spaced[k] == rest[k - 2];
  }

  // ---- what reading any lines gives ----

  function Said(line: string, valid: string -> bool): Result<Line, Why> { ParseLine(Fields(BeforeHash(line)), valid) }

  predicate Blank(line: string) { Fields(BeforeHash(line)) == [] }

  predicate Reads(line: string, valid: string -> bool) { Blank(line) || Said(line, valid).Ok? }

  ghost predicate AllReads(lines: seq<string>, valid: string -> bool) {
    forall k | 0 <= k < |lines| :: Reads(lines[k], valid)
  }

  function StatedBy(line: string, valid: string -> bool): seq<Rule> {
    if !Blank(line) && Said(line, valid).Ok? && Said(line, valid).value.Adds?
    then [Said(line, valid).value.rule]
    else []
  }

  function HopsBy(line: string, valid: string -> bool, before: nat): nat {
    if !Blank(line) && Said(line, valid).Ok? && Said(line, valid).value.Hops?
    then if Said(line, valid).value.hops == 0 then 1 else Said(line, valid).value.hops
    else before
  }

  // The rules the lines state, in the order they stand.
  function Stating(lines: seq<string>, valid: string -> bool): seq<Rule>
    decreases |lines|
  {
    if lines == [] then [] else Stating(lines[..|lines| - 1], valid) + StatedBy(lines[|lines| - 1], valid)
  }

  // The hops the last line about them gives, at least one.
  function HopsOf(lines: seq<string>, valid: string -> bool, before: nat): nat
    decreases |lines|
  {
    if lines == [] then before
    else HopsBy(lines[|lines| - 1], valid, HopsOf(lines[..|lines| - 1], valid, before))
  }

  lemma OneRead(lines: seq<string>, line: string, valid: string -> bool)
    ensures var front := ReadLines(lines, valid);
            var all := ReadLines(lines + [line], valid);
            && (all.Ok? <==> front.Ok? && Reads(line, valid))
            && (all.Ok? ==> all.value.maxHops == HopsBy(line, valid, front.value.maxHops))
            && (all.Ok? ==> all.value.rules == if StatedBy(line, valid) == [] then front.value.rules
                                               else Sorted(front.value.rules + StatedBy(line, valid)))
  {
    var all := lines + [line];
    assert all[..|all| - 1] == lines && all[|all| - 1] == line;
  }

  // Lines are read exactly when each of them can be; and then the table holds the rules they state,
  // sorted, and the last hops they give.
  lemma {:induction false} ReadLinesIs(lines: seq<string>, valid: string -> bool)
    ensures ReadLines(lines, valid).Ok? <==> AllReads(lines, valid)
    ensures AllReads(lines, valid) ==>
              ReadLines(lines, valid)
              == Ok(Table(Sorted(Stating(lines, valid)), HopsOf(lines, valid, DEFAULT_MAX_HOPS)))
    decreases |lines|
  {
    if lines != [] {
      var front, line := lines[..|lines| - 1], lines[|lines| - 1];
      assert lines == front + [line];
      ReadLinesIs(front, valid);
      OneRead(front, line, valid);
      AllReadsOne(front, line, valid);
      StatedAgain(Stating(front, valid), StatedBy(line, valid));
    }
  }

  lemma AllReadsOne(lines: seq<string>, line: string, valid: string -> bool)
    ensures AllReads(lines + [line], valid) <==> AllReads(lines, valid) && Reads(line, valid)
  {
    AllReadsJoin(lines, [line], valid);
    assert [line][0] == line;
  }

  lemma StatedAgain(rules: seq<Rule>, stated: seq<Rule>)
    requires |stated| <= 1
    ensures Sorted(rules + stated) == if stated == [] then Sorted(rules) else Sorted(Sorted(rules) + stated)
  {
    if stated == [] {
      assert rules + stated == rules;
    } else {
      SortedAgain(rules, stated[0]);
      assert stated == [stated[0]];
    }
  }

  lemma StatingPush(lines: seq<string>, line: string, valid: string -> bool, before: nat)
    ensures Stating(lines + [line], valid) == Stating(lines, valid) + StatedBy(line, valid)
    ensures HopsOf(lines + [line], valid, before) == HopsBy(line, valid, HopsOf(lines, valid, before))
  {
    var all := lines + [line];
    assert all[..|all| - 1] == lines && all[|all| - 1] == line;
  }

  lemma {:induction false} StatingJoins(a: seq<string>, b: seq<string>, valid: string -> bool, before: nat)
    ensures Stating(a + b, valid) == Stating(a, valid) + Stating(b, valid)
    ensures HopsOf(a + b, valid, before) == HopsOf(b, valid, HopsOf(a, valid, before))
    decreases |b|
  {
    if b == [] {
      assert a + b == a;
    } else {
      var front, line := b[..|b| - 1], b[|b| - 1];
      Joined(a, front, [line]);
      assert b == front + [line];
      StatingPush(a + front, line, valid, before);
      StatingPush(front, line, valid, HopsOf(a, valid, before));
      StatingJoins(a, front, valid, before);
      Joined(Stating(a, valid), Stating(front, valid), StatedBy(line, valid));
    }
  }

  lemma AllReadsJoin(a: seq<string>, b: seq<string>, valid: string -> bool)
    ensures AllReads(a + b, valid) <==> AllReads(a, valid) && AllReads(b, valid)
  {
    var all := a + b;
    if AllReads(all, valid) {
      assert forall k | 0 <= k < |a| :: a[k] == all[k];
      assert forall k | 0 <= k < |b| :: b[k] == all[|a| + k];
    }
  }

  // ---- a whole table ----

  lemma LinesAt(text: string, i: nat)
    requires i < |text| && text[i] == '\n' && '\n' !in text[..i]
    ensures Lines(text) == [StripReturn(text[..i])] + Lines(text[i + 1..])
  {
    FindCharIs(text, '\n', i);
  }

  lemma LinesLast(s: string, rest: string)
    requires '\n' !in s
    ensures Lines(s + ("\n" + rest)) == [StripReturn(s)] + Lines(rest)
  {
    var text := s + ("\n" + rest);
    assert text[..|s|] == s && text[|s|] == '\n' && text[|s| + 1..] == rest;
    LinesAt(text, |s|);
  }

  lemma LinesNext(s: string, i: nat, rest: string)
    requires FindChar(s, '\n') == Some(i)
    ensures Lines(s + ("\n" + rest)) == [StripReturn(s[..i])] + Lines(s[i + 1..] + ("\n" + rest))
  {
    var text := s + ("\n" + rest);
    assert text[..i] == s[..i] && text[i] == '\n' && text[i + 1..] == s[i + 1..] + ("\n" + rest);
    LinesAt(text, i);
  }

  // The lines of a text with a line end put after it.
  function OwnLines(s: string): seq<string>
    decreases |s|
  {
    match FindChar(s, '\n')
    case None => [StripReturn(s)]
    case Some(i) => [StripReturn(s[..i])] + OwnLines(s[i + 1..])
  }

  lemma {:induction false} LinesJoin(s: string, rest: string)
    ensures Lines(s + ("\n" + rest)) == OwnLines(s) + Lines(rest)
    decreases |s|
  {
    match FindChar(s, '\n')
    case None => LinesLast(s, rest);
    case Some(i) =>
      LinesJoin(s[i + 1..], rest);
      LinesJoinStep(s, i, rest);
  }

  lemma LinesJoinStep(s: string, i: nat, rest: string)
    requires FindChar(s, '\n') == Some(i) && Lines(s[i + 1..] + ("\n" + rest)) == OwnLines(s[i + 1..]) + Lines(rest)
    ensures Lines(s + ("\n" + rest)) == OwnLines(s) + Lines(rest)
  {
    LinesNext(s, i, rest);
    LinesAssoc(StripReturn(s[..i]), OwnLines(s[i + 1..]), Lines(rest));
  }

  lemma LinesAssoc(first: string, own: seq<string>, rest: seq<string>)
    ensures [first] + own + rest == [first] + (own + rest)
  {
  }

  // The lines a rule is written as, and those after the first, which a line end in a fixed value
  // starts.
  function WrittenAs(rule: Rule): seq<string> { OwnLines(RuleLine(rule)) }

  function Spill(rule: Rule): seq<string> { WrittenAs(rule)[1..] }

  function RulesAs(rules: seq<Rule>): seq<string> {
    if rules == [] then [] else WrittenAs(rules[0]) + RulesAs(rules[1..])
  }

  // Every line after the rules' own.
  function Spilled(rules: seq<Rule>): seq<string> {
    if rules == [] then [] else Spill(rules[0]) + Spilled(rules[1..])
  }

  // The rules without their arguments, each with the rules its further lines state.
  function Left(rules: seq<Rule>, valid: string -> bool): seq<Rule> {
    if rules == [] then [] else [Half(rules[0])] + Stating(Spill(rules[0]), valid) + Left(rules[1..], valid)
  }

  ghost predicate ReadsThrough(rule: Rule, valid: string -> bool) {
    (Argued(rule.request) ==> HalfRead(rule.request)) && AllReads(Spill(rule), valid)
  }

  lemma {:induction false} UnlinesRules(lines: seq<string>, rules: seq<Rule>)
    requires |lines| == |rules| && forall k | 0 <= k < |lines| :: lines[k] == RuleLine(rules[k])
    ensures Lines(Unlines(lines)) == RulesAs(rules)
  {
    if rules != [] {
      UnlinesRules(lines[1..], rules[1..]);
      LinesJoin(lines[0], Unlines(lines[1..]));
    }
  }

  lemma TableText(table: Table)
    ensures Lines(WriteTable(table)) == HopsLines(table.maxHops) + RulesAs(table.rules)
  {
    var head, rules := HopsLines(table.maxHops), RuleLines(table.rules);
    UnlinesRules(rules, table.rules);
    if head == [] {
      assert head + rules == rules;
    } else {
      HeadOneLine(table.maxHops);
      assert (head + rules)[0] == head[0] && (head + rules)[1..] == rules;
      LinesJoin(head[0], Unlines(rules));
      FirstLineAfter(head[0], "");
      assert head[0] + "" == head[0] && head == [head[0]];
    }
  }

  lemma RuleReads(rule: Rule, valid: string -> bool, before: nat)
    requires Written(rule, valid)
    ensures AllReads(WrittenAs(rule), valid) <==> ReadsThrough(rule, valid)
    ensures ReadsThrough(rule, valid) ==> Stating(WrittenAs(rule), valid) == [Half(rule)] + Stating(Spill(rule), valid)
    ensures ReadsThrough(rule, valid) ==> HopsOf(WrittenAs(rule), valid, before) == HopsOf(Spill(rule), valid, before)
  {
    HalfReadIff(rule, valid);
    var first := FirstLine(RuleLine(rule));
    assert WrittenAs(rule) == [first] + Spill(rule);
    AllReadsJoin([first], Spill(rule), valid);
    StatingJoins([first], Spill(rule), valid, before);
    OneStating(first, valid, before);
  }

  lemma OneStating(line: string, valid: string -> bool, before: nat)
    ensures AllReads([line], valid) <==> Reads(line, valid)
    ensures Stating([line], valid) == StatedBy(line, valid)
    ensures HopsOf([line], valid, before) == HopsBy(line, valid, before)
  {
    var lines := [line];
    assert lines[..0] == [] && lines[0] == line;
    assert Stating(lines[..0], valid) == [] && HopsOf(lines[..0], valid, before) == before;
  }

  ghost predicate AllWritten(rules: seq<Rule>, valid: string -> bool) {
    forall k | 0 <= k < |rules| :: Written(rules[k], valid)
  }

  ghost predicate AllReadThrough(rules: seq<Rule>, valid: string -> bool) {
    forall k | 0 <= k < |rules| :: ReadsThrough(rules[k], valid)
  }

  // A rule in front of lines.
  lemma RuleThenLines(rule: Rule, lines: seq<string>, valid: string -> bool, before: nat)
    requires Written(rule, valid)
    ensures AllReads(WrittenAs(rule) + lines, valid) <==> ReadsThrough(rule, valid) && AllReads(lines, valid)
    ensures ReadsThrough(rule, valid) ==>
              Stating(WrittenAs(rule) + lines, valid)
              == [Half(rule)] + Stating(Spill(rule), valid) + Stating(lines, valid)
    ensures ReadsThrough(rule, valid) ==>
              HopsOf(WrittenAs(rule) + lines, valid, before) == HopsOf(lines, valid, HopsOf(Spill(rule), valid, before))
  {
    RuleReads(rule, valid, before);
    AllReadsJoin(WrittenAs(rule), lines, valid);
    StatingJoins(WrittenAs(rule), lines, valid, before);
  }

  lemma ReadThroughCons(rules: seq<Rule>, valid: string -> bool)
    requires rules != []
    ensures AllReadThrough(rules, valid) <==> ReadsThrough(rules[0], valid) && AllReadThrough(rules[1..], valid)
  {
    var rest := rules[1..];
    assert forall k | 0 <= k < |rest| :: rest[k] == rules[k + 1];
    assert forall k | 0 < k < |rules| :: rules[k] == rest[k - 1];
  }

  lemma {:induction false} RulesAsRead(rules: seq<Rule>, valid: string -> bool, before: nat)
    requires AllWritten(rules, valid)
    ensures AllReads(RulesAs(rules), valid) <==> AllReadThrough(rules, valid)
    ensures AllReadThrough(rules, valid) ==>
              && Stating(RulesAs(rules), valid) == Left(rules, valid)
              && HopsOf(RulesAs(rules), valid, before) == HopsOf(Spilled(rules), valid, before)
    decreases |rules|
  {
    if rules != [] {
      var first, rest := rules[0], rules[1..];
      assert forall k | 0 <= k < |rest| :: rest[k] == rules[k + 1];
      RuleThenLines(first, RulesAs(rest), valid, before);
      RulesAsRead(rest, valid, HopsOf(Spill(first), valid, before));
      SpillJoins(first, rest, valid, before);
      ReadThroughCons(rules, valid);
    }
  }

  lemma SpillJoins(first: Rule, rest: seq<Rule>, valid: string -> bool, before: nat)
    ensures HopsOf(Spill(first) + Spilled(rest), valid, before)
         == HopsOf(Spilled(rest), valid, HopsOf(Spill(first), valid, before))
  {
    StatingJoins(Spill(first), Spilled(rest), valid, before);
  }

  // A table of such rules, written out, is read exactly when every rule with arguments loses them
  // and every further line of its values can itself be read: and what is read is the rules without
  // their arguments, whatever rules those lines state, and the last hops they give.
  lemma WrittenTableReads(table: Table, valid: string -> bool)
    requires 0 < table.maxHops <= WORD_MAX && AllWritten(table.rules, valid)
    ensures ReadTable(WriteTable(table), valid).Ok? <==> AllReadThrough(table.rules, valid)
    ensures AllReadThrough(table.rules, valid) ==>
              ReadTable(WriteTable(table), valid)
              == Ok(Table(Sorted(Left(table.rules, valid)), HopsOf(Spilled(table.rules), valid, table.maxHops)))
  {
    TableText(table);
    HeadThenLines(table.maxHops, RulesAs(table.rules), valid);
    RulesAsRead(table.rules, valid, table.maxHops);
  }

  lemma HeadThenLines(maxHops: nat, lines: seq<string>, valid: string -> bool)
    requires 0 < maxHops <= WORD_MAX
    ensures ReadLines(HopsLines(maxHops) + lines, valid).Ok? <==> AllReads(lines, valid)
    ensures AllReads(lines, valid) ==>
              ReadLines(HopsLines(maxHops) + lines, valid)
              == Ok(Table(Sorted(Stating(lines, valid)), HopsOf(lines, valid, maxHops)))
  {
    HeadStates(maxHops, valid);
    AfterHead(HopsLines(maxHops), lines, valid, maxHops);
  }

  lemma AfterHead(head: seq<string>, lines: seq<string>, valid: string -> bool, maxHops: nat)
    requires AllReads(head, valid) && Stating(head, valid) == [] && HopsOf(head, valid, DEFAULT_MAX_HOPS) == maxHops
    ensures ReadLines(head + lines, valid).Ok? <==> AllReads(lines, valid)
    ensures AllReads(lines, valid) ==>
              ReadLines(head + lines, valid) == Ok(Table(Sorted(Stating(lines, valid)), HopsOf(lines, valid, maxHops)))
  {
    ReadLinesIs(head + lines, valid);
    AllReadsJoin(head, lines, valid);
    StatingJoins(head, lines, valid, DEFAULT_MAX_HOPS);
    assert [] + Stating(lines, valid) == Stating(lines, valid);
  }

  lemma HeadStates(maxHops: nat, valid: string -> bool)
    requires 0 < maxHops <= WORD_MAX
    ensures AllReads(HopsLines(maxHops), valid)
    ensures Stating(HopsLines(maxHops), valid) == [] && HopsOf(HopsLines(maxHops), valid, DEFAULT_MAX_HOPS) == maxHops
  {
    HeadReads(maxHops, valid);
    ReadLinesIs(HopsLines(maxHops), valid);
    StableSortSorts(Stating(HopsLines(maxHops), valid), RuleKey);
  }

  function Halves(rules: seq<Rule>): seq<Rule> { seq(|rules|, k requires 0 <= k < |rules| => Half(rules[k])) }

  // A table in order whose rules have no line end in their texts comes back, if it does, as the same
  // table without its arguments.
  lemma HalfReadTable(table: Table, valid: string -> bool)
    requires InOrder(table.rules) && 0 < table.maxHops <= WORD_MAX && AllWritten(table.rules, valid)
    requires forall rule | rule in table.rules :: '\n' !in RuleLine(rule)
    ensures ReadTable(WriteTable(table), valid).Ok?
            <==> forall rule | rule in table.rules :: Argued(rule.request) ==> HalfRead(rule.request)
    ensures ReadTable(WriteTable(table), valid).Ok? ==>
              ReadTable(WriteTable(table), valid) == Ok(Table(Halves(table.rules), table.maxHops))
  {
    WrittenTableReads(table, valid);
    NothingSpilled(table.rules, valid);
    LostThrough(table.rules, valid);
    HalvesInOrder(table.rules);
    SortedStays(Halves(table.rules), RuleKey);
  }

  lemma LostThrough(rules: seq<Rule>, valid: string -> bool)
    requires forall rule | rule in rules :: '\n' !in RuleLine(rule)
    ensures AllReadThrough(rules, valid)
            <==> forall rule | rule in rules :: Argued(rule.request) ==> HalfRead(rule.request)
  {
    forall k | 0 <= k < |rules|
      ensures ReadsThrough(rules[k], valid) <==> (Argued(rules[k].request) ==> HalfRead(rules[k].request))
    {
      NoneSpilled(rules[k], valid);
    }
  }

  lemma HalvesInOrder(rules: seq<Rule>)
    requires InOrder(rules)
    ensures InOrder(Halves(rules))
  {
    var halves := Halves(rules);
    forall i, j | 0 <= i < j < |rules| ensures !LexLess(RuleKey(halves[j]), RuleKey(halves[i])) {
      assert RuleKey(halves[j]) == RuleKey(rules[j]) && RuleKey(halves[i]) == RuleKey(rules[i]);
    }
  }

  lemma {:induction false} NothingSpilled(rules: seq<Rule>, valid: string -> bool)
    requires forall rule | rule in rules :: '\n' !in RuleLine(rule)
    ensures Spilled(rules) == [] && Left(rules, valid) == Halves(rules)
  {
    if rules != [] {
      NoneSpilled(rules[0], valid);
      NothingSpilled(rules[1..], valid);
      HalvesCons(rules);
    }
  }

  lemma NoneSpilled(rule: Rule, valid: string -> bool)
    requires '\n' !in RuleLine(rule)
    ensures Spill(rule) == [] && Stating(Spill(rule), valid) == []
    ensures ReadsThrough(rule, valid) <==> (Argued(rule.request) ==> HalfRead(rule.request))
  {
  }

  lemma HalvesCons(rules: seq<Rule>)
    requires rules != []
    ensures Halves(rules) == [Half(rules[0])] + [] + Halves(rules[1..])
  {
  }
}
