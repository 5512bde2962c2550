// Two rules of one kind and one logical name (crates/ikigai-core/src/alias.rs:657-664): exactly when
// the one added later is ever the one that applies.

module AliasTwins {
  import opened Wrappers
  import opened Text
  import opened Sorting
  import opened Grammar
  import opened AliasRules
  import opened AliasTables

  // ---- which variables may be empty, and what a template then matches ----

  // Whatever splits the input splits it when more of the template's variables may be empty.
  lemma {:induction false} SplitsGrow(parts: seq<Part>, i: nat, input: string, pos: nat, spans: seq<Span>,
                                      fewer: set<string>, more: set<string>)
    requires i <= |parts| && Splits(parts, i, input, pos, spans, fewer)
    requires forall v | v in Variables(parts[i..]) && v in fewer :: v in more
    ensures Splits(parts, i, input, pos, spans, more)
    decreases |parts| - i
  {
    if i < |parts| {
      var rest := parts[i..];
      assert rest[1..] == parts[i + 1..];
      match parts[i]
      case Lit(text) => SplitsGrow(parts, i + 1, input, pos + |text|, spans, fewer, more);
      case Var(name) =>
        assert Variables(rest)[0] == name && Variables(rest)[1..] == Variables(parts[i + 1..]);
        SplitsGrow(parts, i + 1, input, spans[0].to, spans[1..], fewer, more);
    }
  }

  lemma MatchGrows(parts: seq<Part>, input: string, fewer: set<string>, more: set<string>)
    requires forall v | v in Variables(parts) && v in fewer :: v in more
    ensures Match(parts, input, fewer).Some? ==> Match(parts, input, more).Some?
  {
    SearchIsLeftmost(parts, 0, input, 0, fewer);
    SearchIsLeftmost(parts, 0, input, 0, more);
    assert parts[0..] == parts;
    if Match(parts, input, fewer).Some? {
      SplitsGrow(parts, 0, input, 0, Search(parts, 0, input, 0, fewer).value, fewer, more);
    }
  }

  // Trying without empty variables first, and with them only when there are any, captures exactly
  // what trying with them would.
  lemma CapturesIff(rule: Rule, template: Template, target: string)
    ensures Captures(rule, template, target).Some?
            <==> Match(template, target, NameSet(MayBeEmpty(rule.request.fixes))).Some?
  {
    MatchGrows(template, target, {}, NameSet(MayBeEmpty(rule.request.fixes)));
    if MayBeEmpty(rule.request.fixes) == [] {
      assert NameSet([]) == {};
    }
  }

  // The later twin lets a variable of the name be empty that the first does not.
  predicate LetsMore(first: Rule, later: Rule) {
    && first.request.template.Some?
    && exists v | v in Variables(first.request.template.value) ::
         v in MayBeEmpty(later.request.fixes) && v !in MayBeEmpty(first.request.fixes)
  }

  ghost predicate Twins(first: Rule, later: Rule) {
    Sound(first) && Sound(later) && first.Matches() == later.Matches() && first.from == later.from
  }

  // Unless it does, it is never the one that applies, wherever the two stand in a table.
  lemma TwinNeverApplies(rules: seq<Rule>, valid: string -> bool, target: string, first: nat, later: nat)
    requires first < later < |rules| && Twins(rules[first], rules[later]) && !LetsMore(rules[first], rules[later])
    ensures Step(rules, valid, target).None? || Step(rules, valid, target).value.0 != later
  {
    StepFromIsFirst(rules, valid, target, 0);
    MatchedRuleRewrites(rules[first], valid, target);
    MatchedRuleRewrites(rules[later], valid, target);
    if rules[first].request.template.Some? {
      var template := rules[first].request.template.value;
      CapturesIff(rules[first], template, target);
      CapturesIff(rules[later], template, target);
      MatchGrows(template, target, NameSet(MayBeEmpty(rules[later].request.fixes)),
                 NameSet(MayBeEmpty(rules[first].request.fixes)));
    }
  }

  // ---- the name only the later one matches ----

  // A template's text with nothing in one variable and one character in every other.
  function Hollow(parts: seq<Part>, v: string, c: char): string {
    if parts == [] then ""
    else
      (match parts[0]
       case Lit(text) => text
       case Var(name) => if name == v then "" else [c]) + Hollow(parts[1..], v, c)
  }

  // The character is in no literal of the template.
  predicate Fresh(parts: seq<Part>, c: char) {
    forall k | 0 <= k < |parts| && parts[k].Lit? :: c !in parts[k].text
  }

  // There always is one: no literal holds an opening brace.
  lemma {:induction false} BraceIsFresh(parts: seq<Part>)
    requires Separated(parts)
    ensures Fresh(parts, '{')
  {
    if parts != [] {
      BraceIsFresh(parts[1..]);
      forall k | 0 <= k < |parts| && parts[k].Lit? ensures '{' !in parts[k].text {
        assert k > 0 ==> parts[k] == parts[1..][k - 1];
      }
    }
  }

  lemma {:induction false} HollowSplits(parts: seq<Part>, i: nat, input: string, pos: nat, v: string, c: char)
    returns (spans: seq<Span>)
    requires i <= |parts| && pos <= |input| && input[pos..] == Hollow(parts[i..], v, c)
    ensures Splits(parts, i, input, pos, spans, {v})
    decreases |parts| - i
  {
    if i == |parts| {
      spans := [];
    } else {
      assert parts[i..][1..] == parts[i + 1..];
      var rest := Hollow(parts[i + 1..], v, c);
      match parts[i]
      case Lit(text) =>
        FillInAt(input, pos, text, rest);
        spans := HollowSplits(parts, i + 1, input, pos + |text|, v, c);
      case Var(name) =>
        var value := if name == v then "" else [c];
        FillInAt(input, pos, value, rest);
        var later := HollowSplits(parts, i + 1, input, pos + |value|, v, c);
        spans := [Span(pos, pos + |value|)] + later;
        assert spans[1..] == later;
    }
  }

  // The characters of a text other than `c`, and of a template's literals.
  function Others(s: string, c: char): nat {
    if s == "" then 0 else (if s[0] == c then 0 else 1) + Others(s[1..], c)
  }

  function Literal(parts: seq<Part>): nat {
    if parts == [] then 0 else (if parts[0].Lit? then |parts[0].text| else 0) + Literal(parts[1..])
  }

  lemma {:induction false} OthersAdd(a: string, b: string, c: char)
    ensures Others(a + b, c) == Others(a, c) + Others(b, c)
  {
    if a == "" {
      assert a + b == b;
    } else {
      assert (a + b)[1..] == a[1..] + b;
      OthersAdd(a[1..], b, c);
    }
  }

  lemma {:induction false} OthersOfLiteral(s: string, c: char)
    requires c !in s
    ensures Others(s, c) == |s|
  {
    if s != "" {
      assert forall x | x in s[1..] :: x in s;
      OthersOfLiteral(s[1..], c);
    }
  }

  lemma {:induction false} NoOthers(s: string, c: char, k: nat)
    requires Others(s, c) == 0 && k < |s|
    ensures s[k] == c
  {
    if k > 0 {
      NoOthers(s[1..], c, k - 1);
    }
  }

  lemma FreshTail(parts: seq<Part>, i: nat, c: char)
    requires i < |parts| && Fresh(parts[i..], c)
    ensures Fresh(parts[i + 1..], c) && (parts[i].Lit? ==> c !in parts[i].text)
  {
    assert parts[i..][0] == parts[i];
    var tail := parts[i + 1..];
    forall k | 0 <= k < |tail| && tail[k].Lit? ensures c !in tail[k].text {
      assert parts[i..][k + 1] == tail[k];
    }
  }

  lemma {:induction false} HollowOthers(parts: seq<Part>, v: string, c: char)
    requires Fresh(parts, c)
    ensures Others(Hollow(parts, v, c), c) == Literal(parts)
  {
    if parts != [] {
      assert parts[0..] == parts;
      FreshTail(parts, 0, c);
      HollowOthers(parts[1..], v, c);
      var rest := Hollow(parts[1..], v, c);
      match parts[0]
      case Lit(text) =>
        OthersOfLiteral(text, c);
        OthersAdd(text, rest, c);
      case Var(name) =>
        OthersAdd(if name == v then "" else [c], rest, c);
    }
  }

  // However a template splits an input, its literals are all there.
  lemma {:induction false} SplitHoldsLiterals(parts: seq<Part>, i: nat, input: string, pos: nat, spans: seq<Span>,
                                              empty: set<string>, c: char)
    requires i <= |parts| && pos <= |input| && Splits(parts, i, input, pos, spans, empty) && Fresh(parts[i..], c)
    ensures Others(input[pos..], c) >= Literal(parts[i..])
    decreases |parts| - i
  {
    if i < |parts| {
      assert parts[i..][1..] == parts[i + 1..];
      FreshTail(parts, i, c);
      var next := match parts[i] case Lit(text) => pos + |text| case Var(_) => spans[0].to;
      SplitHoldsLiterals(parts, i + 1, input, next, if parts[i].Lit? then spans else spans[1..], empty, c);
      SplitSlice(input, pos, next);
      OthersAdd(input[pos..next], input[next..], c);
      if parts[i].Lit? {
        OthersOfLiteral(parts[i].text, c);
      }
    }
  }

  // What follows a variable does not start with a character no literal holds.
  lemma AfterVariable(parts: seq<Part>, i: nat, v: string, c: char)
    requires WellFormed(parts) && i < |parts| && parts[i].Var? && Fresh(parts[i..], c)
    ensures var rest := Hollow(parts[i + 1..], v, c); rest != "" ==> rest[0] != c
  {
    if i + 1 < |parts| {
      WellFormedNext(parts, i);
      FreshTail(parts, i, c);
      FreshTail(parts, i + 1, c);
      assert parts[i + 1..][0] == parts[i + 1];
    }
  }

  // A variable's span of the hollow text ends where its own character does.
  lemma SpanIsOwn(parts: seq<Part>, i: nat, input: string, pos: nat, spans: seq<Span>, empty: set<string>, v: string,
                  c: char, value: string)
    requires WellFormed(parts) && i < |parts| && parts[i].Var? && Fresh(parts[i..], c) && pos <= |input|
    requires input[pos..] == value + Hollow(parts[i + 1..], v, c) && Others(value, c) == 0
    requires Splits(parts, i, input, pos, spans, empty)
    ensures spans[0].to <= pos + |value|
  {
    var to := spans[0].to;
    var rest := Hollow(parts[i + 1..], v, c);
    FreshTail(parts, i, c);
    SplitHoldsLiterals(parts, i + 1, input, to, spans[1..], empty, c);
    HollowOthers(parts[i + 1..], v, c);
    OthersAdd(value, rest, c);
    SplitSlice(input, pos, to);
    OthersAdd(input[pos..to], input[to..], c);
    if to > pos + |value| {
      assert input[pos..to][|value|] == input[pos..][|value|] == rest[0];
      AfterVariable(parts, i, v, c);
      NoOthers(input[pos..to], c, |value|);
    }
  }

  // Nothing stands where a variable's own character does.
  lemma NotSkipped(parts: seq<Part>, i: nat, input: string, pos: nat, spans: seq<Span>, empty: set<string>, c: char)
    requires WellFormed(parts) && i < |parts| && parts[i].Var? && Fresh(parts[i..], c)
    requires pos < |input| && input[pos] == c && Splits(parts, i, input, pos, spans, empty)
    ensures spans[0].to > pos
  {
    if i + 1 < |parts| {
      WellFormedNext(parts, i);
      FreshTail(parts, i, c);
      FreshTail(parts, i + 1, c);
      assert parts[i + 1].text[0] in parts[i + 1].text;
    }
  }

  // The hollow text has no split that leaves the variable out.
  lemma {:induction false} HollowNeedsEmpty(parts: seq<Part>, i: nat, input: string, pos: nat, spans: seq<Span>,
                                            empty: set<string>, v: string, c: char)
    requires WellFormed(parts) && i <= |parts| && pos <= |input| && Fresh(parts[i..], c)
    requires input[pos..] == Hollow(parts[i..], v, c) && Splits(parts, i, input, pos, spans, empty)
    ensures v in Variables(parts[i..]) ==> v in empty
    decreases |parts| - i
  {
    if i < |parts| {
      assert parts[i..][1..] == parts[i + 1..];
      FreshTail(parts, i, c);
      var rest := Hollow(parts[i + 1..], v, c);
      match parts[i]
      case Lit(text) =>
        FillInAt(input, pos, text, rest);
        HollowNeedsEmpty(parts, i + 1, input, pos + |text|, spans, empty, v, c);
      case Var(name) =>
        var value := if name == v then "" else [c];
        FillInAt(input, pos, value, rest);
        SpanIsOwn(parts, i, input, pos, spans, empty, v, c, value);
        if name != v {
          assert input[pos..][0] == c;
          NotSkipped(parts, i, input, pos, spans, empty, c);
          HollowNeedsEmpty(parts, i + 1, input, pos + 1, spans[1..], empty, v, c);
        }
    }
  }

  // So the hollow text matches exactly when the variable may be empty.
  lemma HollowMatches(parts: seq<Part>, v: string, c: char, empty: set<string>)
    requires WellFormed(parts) && Fresh(parts, c) && v in Variables(parts)
    ensures Match(parts, Hollow(parts, v, c), empty).Some? <==> v in empty
  {
    var input := Hollow(parts, v, c);
    assert parts[0..] == parts && input[0..] == input;
    SearchIsLeftmost(parts, 0, input, 0, empty);
    if v in empty {
      var spans := HollowSplits(parts, 0, input, 0, v, c);
      SplitsGrow(parts, 0, input, 0, spans, {v}, empty);
    } else if Match(parts, input, empty).Some? {
      HollowNeedsEmpty(parts, 0, input, 0, Search(parts, 0, input, 0, empty).value, empty, v, c);
    }
  }

  // ---- exactly when the later twin applies ----

  // A variable only the later twin lets be empty: it is the one that applies to the name with
  // nothing there and one fresh character in every other variable.
  lemma LaterTwinApplies(first: Rule, later: Rule, v: string, c: char, valid: string -> bool)
    requires Twins(first, later) && first.request.template.Some?
    requires v in Variables(first.request.template.value) && Fresh(first.request.template.value, c)
    requires v in MayBeEmpty(later.request.fixes) && v !in MayBeEmpty(first.request.fixes)
    requires valid(Hollow(first.request.template.value, v, c))
    ensures var step := Step([first, later], valid, Hollow(first.request.template.value, v, c));
            step.Some? && step.value.0 == 1
  {
    var template := first.request.template.value;
    var target := Hollow(template, v, c);
    HollowMatches(template, v, c, NameSet(MayBeEmpty(first.request.fixes)));
    HollowMatches(template, v, c, NameSet(MayBeEmpty(later.request.fixes)));
    CapturesIff(first, template, target);
    CapturesIff(later, template, target);
    MatchedRuleRewrites(first, valid, target);
    MatchedRuleRewrites(later, valid, target);
    assert StepFrom([first, later], valid, target, 1).Some?;
  }

  ghost predicate Applies(rules: seq<Rule>, valid: string -> bool, target: string, index: nat) {
    Step(rules, valid, target).Some? && Step(rules, valid, target).value.0 == index
  }

  // Of two rules with one kind and one name, the one added later can apply exactly when it lets a
  // variable of the name be empty that the other does not.
  lemma LaterTwinAppliesIff(first: Rule, later: Rule)
    requires Twins(first, later)
    ensures (exists valid: string -> bool, target: string :: Applies([first, later], valid, target, 1))
            <==> LetsMore(first, later)
  {
    if LetsMore(first, later) {
      var template := first.request.template.value;
      var v :| v in Variables(template) && v in MayBeEmpty(later.request.fixes)
               && v !in MayBeEmpty(first.request.fixes);
      BraceIsFresh(template);
      var valid := (s: string) => true;
      LaterTwinApplies(first, later, v, '{', valid);
      assert Applies([first, later], valid, Hollow(template, v, '{'), 1);
    } else {
      forall valid: string -> bool, target: string ensures !Applies([first, later], valid, target, 1) {
        TwinNeverApplies([first, later], valid, target, 0, 1);
      }
    }
  }

  // The check holds a reference's variables to the name's own, so for two accepted rules that is
  // whether what the later one lets be empty is within what the first does.
  lemma AcceptedTwinsIff(a: Stated, b: Stated, valid: string -> bool)
    requires Acceptable(a, valid) && Acceptable(b, valid)
    requires a.from == b.from && a.kind == b.kind && a.template == b.template
    ensures Twins(Built(a), Built(b))
    ensures LetsMore(Built(a), Built(b))
            <==> !(NameSet(MayBeEmpty(PartOf(b).fixes)) <= NameSet(MayBeEmpty(PartOf(a).fixes)))
  {
    AcceptedIsSound(a, valid);
    AcceptedIsSound(b, valid);
    ReferencesAreOwn(b, valid);
    var fewer, more := NameSet(MayBeEmpty(PartOf(a).fixes)), NameSet(MayBeEmpty(PartOf(b).fixes));
    if !(more <= fewer) {
      var v :| v in more && v !in fewer;
      assert v in Vars(b) && v in MayBeEmpty(PartOf(b).fixes);
      assert v in Variables(Built(a).request.template.value);
    }
    if LetsMore(Built(a), Built(b)) {
      var v :| v in MayBeEmpty(PartOf(b).fixes) && v !in MayBeEmpty(PartOf(a).fixes);
      assert v in more && v !in fewer;
    }
  }

  lemma ReferencesAreOwn(rule: Stated, valid: string -> bool)
    requires Acceptable(rule, valid)
    ensures forall v | v in MayBeEmpty(PartOf(rule).fixes) :: v in Vars(rule)
  {
    StableSortSorts(rule.fixes, ArgumentKey);
    var fixes := PartOf(rule).fixes;
    forall k | 0 <= k < |fixes| && fixes[k].value.ReferenceTemplate?
      ensures forall v | v in Variables(fixes[k].value.template) :: v in Vars(rule)
    {
      assert fixes[k] in fixes && fixes[k] in rule.fixes;
    }
    ReferencesWithin(fixes, Vars(rule));
  }

  lemma {:induction false} ReferencesWithin(fixes: seq<FixedArgument>, vars: seq<string>)
    requires forall k | 0 <= k < |fixes| && fixes[k].value.ReferenceTemplate? ::
               forall v | v in Variables(fixes[k].value.template) :: v in vars
    ensures forall v | v in MayBeEmpty(fixes) :: v in vars
  {
    if fixes != [] {
      ReferencesWithin(fixes[1..], vars);
    }
  }
}
