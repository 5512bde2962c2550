// What a rule rewrites a name to (crates/ikigai-core/src/alias.rs:486-518), stated without running it.

module AliasMeaning {
  import opened Wrappers
  import opened Text
  import opened Sorting
  import opened Grammar
  import opened ContractIris
  import opened AliasRules

  // ---- what a template captures ----

  // Of all the ways the template splits the input, the one whose spans end soonest, first span first.
  ghost predicate Leftmost(parts: seq<Part>, input: string, empty: set<string>, spans: seq<Span>) {
    Splits(parts, 0, input, 0, spans, empty)
    && forall others :: Splits(parts, 0, input, 0, others, empty) ==> NoLater(spans, others)
  }

  // Each variable, and no other name, is bound to the text of the last span that has its name.
  ghost predicate Binds(names: seq<string>, input: string, spans: seq<Span>, m: Bindings) {
    && |spans| == |names| && (forall k | 0 <= k < |spans| :: spans[k].from <= spans[k].to <= |input|)
    && m.Keys == NameSet(names)
    && forall k | 0 <= k < |names| && names[k] !in names[k + 1..] :: BoundAt(names, input, spans, m, k)
  }

  ghost predicate BoundAt(names: seq<string>, input: string, spans: seq<Span>, m: Bindings, k: nat)
    requires k < |names| == |spans|
  {
    names[k] in m && spans[k].from <= spans[k].to <= |input| && m[names[k]] == input[spans[k].from..spans[k].to]
  }

  ghost predicate Matched(parts: seq<Part>, input: string, empty: set<string>, m: Bindings) {
    exists spans :: Leftmost(parts, input, empty, spans) && Binds(Variables(parts), input, spans, m)
  }

  // Two splits neither of which is later are one.
  lemma {:induction false} NoLaterOnce(parts: seq<Part>, i: nat, input: string, pos: nat, a: seq<Span>, b: seq<Span>,
                                       empty: set<string>)
    requires i <= |parts| && Splits(parts, i, input, pos, a, empty) && Splits(parts, i, input, pos, b, empty)
    requires NoLater(a, b) && NoLater(b, a)
    ensures a == b
    decreases |parts| - i
  {
    if i < |parts| {
      match parts[i]
      case Lit(text) => NoLaterOnce(parts, i + 1, input, pos + |text|, a, b, empty);
      case Var(name) =>
        NoLaterOnce(parts, i + 1, input, a[0].to, a[1..], b[1..], empty);
        assert a == [a[0]] + a[1..] && b == [b[0]] + b[1..];
    }
  }

  lemma {:induction false} LastIndex(names: seq<string>, v: string) returns (k: nat)
    requires v in names
    ensures k < |names| && names[k] == v && v !in names[k + 1..]
    decreases |names|
  {
    k := |names| - 1;
    if names[k] != v {
      var front := names[..k];
      assert names == front + [names[k]];
      var j := LastIndex(front, v);
      assert names[j + 1..] == front[j + 1..] + [names[k]];
      k := j;
    }
  }

  lemma BindsOnce(names: seq<string>, input: string, spans: seq<Span>, a: Bindings, b: Bindings)
    requires Binds(names, input, spans, a) && Binds(names, input, spans, b)
    ensures a == b
  {
    forall v | v in a.Keys ensures a[v] == b[v] {
      var k := LastIndex(names, v);
      assert BoundAt(names, input, spans, a, k) && BoundAt(names, input, spans, b, k);
    }
  }

  lemma {:induction false} BindFirstKeys(names: seq<string>, spans: seq<Span>, input: string, n: nat)
    requires n <= |names| && n <= |spans|
    requires forall i | 0 <= i < |spans| :: spans[i].from <= spans[i].to <= |input|
    ensures BindFirst(names, spans, input, n).Keys == NameSet(names[..n])
    decreases n
  {
    if n > 0 {
      BindFirstKeys(names, spans, input, n - 1);
      assert names[..n] == names[..n - 1] + [names[n - 1]];
    }
  }

  lemma BindFirstBinds(names: seq<string>, spans: seq<Span>, input: string)
    requires |spans| == |names| && forall i | 0 <= i < |spans| :: spans[i].from <= spans[i].to <= |input|
    ensures Binds(names, input, spans, BindFirst(names, spans, input, |names|))
  {
    var bound := BindFirst(names, spans, input, |names|);
    BindFirstKeys(names, spans, input, |names|);
    assert names[..|names|] == names;
    forall k | 0 <= k < |names| && names[k] !in names[k + 1..] ensures BoundAt(names, input, spans, bound, k) {
      LastBound(names, spans, input, k);
    }
  }

  lemma LastBound(names: seq<string>, spans: seq<Span>, input: string, k: nat)
    requires |spans| == |names| && forall i | 0 <= i < |spans| :: spans[i].from <= spans[i].to <= |input|
    requires k < |names| && names[k] !in names[k + 1..]
    ensures BoundAt(names, input, spans, BindFirst(names, spans, input, |names|), k)
  {
    BindKeepsLast(names, spans, input, |names|, k);
    var bound := BindFirst(names, spans, input, |names|);
    var j :| k <= j < |names| && names[j] == names[k] && bound[names[k]] == input[spans[j].from..spans[j].to];
  }

  // A match is what the leftmost split binds, and there is one exactly when there is a split.
  lemma MatchIff(parts: seq<Part>, input: string, empty: set<string>, m: Bindings)
    ensures Match(parts, input, empty) == Some(m) <==> Matched(parts, input, empty, m)
  {
    SearchIsLeftmost(parts, 0, input, 0, empty);
    var found := Search(parts, 0, input, 0, empty);
    if found.Some? {
      SplitsAreSpans(parts, 0, input, 0, found.value, empty);
      assert parts[0..] == parts;
      BindFirstBinds(Variables(parts), found.value, input);
      if spans :| Leftmost(parts, input, empty, spans) && Binds(Variables(parts), input, spans, m) {
        NoLaterOnce(parts, 0, input, 0, spans, found.value, empty);
        BindsOnce(Variables(parts), input, spans, m, Match(parts, input, empty).value);
      }
    }
  }

  // ---- what a rule does ----

  // The variables of its references.
  ghost function Empties(fixes: seq<FixedArgument>): set<string> {
    set k, v | 0 <= k < |fixes| && fixes[k].value.ReferenceTemplate? && v in Variables(fixes[k].value.template) :: v
  }

  lemma {:induction false} MayBeEmptyIs(fixes: seq<FixedArgument>)
    ensures NameSet(MayBeEmpty(fixes)) == Empties(fixes)
  {
    if fixes != [] {
      var rest := fixes[1..];
      MayBeEmptyIs(rest);
      forall v ensures v in MayBeEmpty(fixes) <==> v in Empties(fixes) {
        assert v in MayBeEmpty(rest) <==> v in NameSet(MayBeEmpty(rest));
        if v in Empties(rest) {
          var k :| 0 <= k < |rest| && rest[k].value.ReferenceTemplate? && v in Variables(rest[k].value.template);
          assert fixes[k + 1] == rest[k];
        }
        if v in Empties(fixes) {
          var k :| 0 <= k < |fixes| && fixes[k].value.ReferenceTemplate? && v in Variables(fixes[k].value.template);
          assert k > 0 ==> fixes[k] == rest[k - 1];
        }
      }
    }
  }

  // A template captures without an empty variable when it can, and with the variables of the rule's
  // references empty where it must.
  ghost predicate Captured(rule: Rule, template: Template, name: string, m: Bindings) {
    if exists n :: Matched(template, name, {}, n) then Matched(template, name, {}, m)
    else Matched(template, name, Empties(rule.request.fixes), m)
  }

  // The target's text with what was captured in its variables.
  ghost predicate LaidOut(to: Template, m: Bindings, next: string) {
    exists texts: seq<string> :: Filled(to, m, texts) && next == FillIn(to, texts)
  }

  ghost predicate Filled(to: Template, m: Bindings, texts: seq<string>) {
    && |texts| == |Variables(to)|
    && forall k | 0 <= k < |texts| :: Variables(to)[k] in m && m[Variables(to)[k]] == texts[k]
  }

  // An exact rule rewrites its own name to its target; a prefix rule keeps what follows the prefix; a
  // template rule, of an IRI, lays out what it captured.
  ghost predicate Rewrites(rule: Rule, valid: string -> bool, name: string, next: string, m: Bindings) {
    match rule.request.template
    case Some(template) =>
      && valid(name) && Captured(rule, template, name, m)
      && (match rule.request.target
          case None => next == rule.to
          case Some(to) => LaidOut(to, m, next))
    case None =>
      && m == map[]
      && (match rule.kind
          case Exact => name == rule.from && next == rule.to
          case Prefix => exists rest :: name == rule.from + rest && next == rule.to + rest)
  }

  lemma CapturesAre(rule: Rule, template: Template, name: string, m: Bindings)
    ensures Captures(rule, template, name) == Some(m) <==> Captured(rule, template, name, m)
  {
    var fixes := rule.request.fixes;
    MayBeEmptyIs(fixes);
    MatchIff(template, name, {}, m);
    MatchIff(template, name, Empties(fixes), m);
    if Match(template, name, {}).Some? {
      MatchIff(template, name, {}, Match(template, name, {}).value);
    } else {
      forall n ensures !Matched(template, name, {}, n) {
        MatchIff(template, name, {}, n);
      }
      if MayBeEmpty(fixes) == [] {
        assert NameSet(MayBeEmpty(fixes)) == {};
      }
    }
  }

  lemma ExpandIs(to: Template, m: Bindings, next: string)
    ensures Expand(to, m) == Some(next) <==> LaidOut(to, m, next)
  {
    if texts: seq<string> :| Filled(to, m, texts) && next == FillIn(to, texts) {
      ExpandFillsIn(to, m, texts);
    }
    if Expand(to, m).Some? {
      ExpandsWhenBound(to, m);
      var names := Variables(to);
      assert forall k | 0 <= k < |names| :: names[k] in names;
      var texts := seq(|names|, k requires 0 <= k < |names| => m[names[k]]);
      assert Filled(to, m, texts);
      ExpandFillsIn(to, m, texts);
    }
  }

  // What a rule gives of a name is exactly that.
  lemma ApplyIff(rule: Rule, valid: string -> bool, name: string, next: string, m: Bindings)
    ensures Apply(rule, valid, name) == Some((next, m)) <==> Rewrites(rule, valid, name, next, m)
  {
    match rule.request.template
    case Some(template) =>
      CapturesAre(rule, template, name, m);
      if rule.request.target.Some? {
        ExpandIs(rule.request.target.value, m, next);
      }
    case None =>
      if rule.kind.Prefix? {
        PrefixKept(rule.from, name);
      }
  }

  lemma PrefixKept(from: string, name: string)
    ensures from <= name <==> exists rest :: name == from + rest
    ensures forall rest :: name == from + rest ==> from <= name && rest == name[|from|..]
  {
    if from <= name {
      assert name == from + name[|from|..];
    }
  }

  // ---- what a stated rule does ----

  lemma PatternIff(text: string, template: Template)
    ensures Pattern(text) == Some(template) <==> Writes(template, text)
  {
    ParseIsInverse(text, template);
    if Parse(text).Ok? {
      ParseIsInverse(text, Parse(text).value);
    }
  }

  // A stated rule that is accepted rewrites as its texts say: a template name by what it captures, its
  // target laid out; any other name as an exact or a prefix rule does.
  ghost predicate StatedRewrites(rule: Stated, valid: string -> bool, name: string, next: string, m: Bindings) {
    if rule.template then
      && valid(name)
      && exists template: Template ::
           && Writes(template, rule.from) && CapturedWith(template, Empties(rule.fixes), name, m)
           && (if '{' in rule.to then exists to: Template :: Writes(to, rule.to) && LaidOut(to, m, next)
               else next == rule.to)
    else
      && m == map[]
      && match rule.kind
         case Exact => name == rule.from && next == rule.to
         case Prefix => exists rest :: name == rule.from + rest && next == rule.to + rest
  }

  ghost predicate CapturedWith(template: Template, empties: set<string>, name: string, m: Bindings) {
    if exists n :: Matched(template, name, {}, n) then Matched(template, name, {}, m)
    else Matched(template, name, empties, m)
  }

  // The arguments are those stated, put in the order of their names.
  lemma PartIsStated(rule: Stated)
    ensures PartOf(rule).verb == rule.verb
    ensures Ascending(PartOf(rule).fixes, ArgumentKey) && forall fix :: fix in PartOf(rule).fixes <==> fix in rule.fixes
    ensures |PartOf(rule).fixes| == |rule.fixes| && |PartOf(rule).inputs| == |rule.inputs|
    ensures Ascending(PartOf(rule).inputs, InputKey) && forall i :: i in PartOf(rule).inputs <==> i in rule.inputs
  {
    StableSortSorts(rule.fixes, ArgumentKey);
    StableSortSorts(rule.inputs, InputKey);
  }

  lemma SameEmpties(a: seq<FixedArgument>, b: seq<FixedArgument>)
    requires forall fix :: fix in a <==> fix in b
    ensures Empties(a) == Empties(b)
  {
    EmptiesWithin(a, b);
    EmptiesWithin(b, a);
  }

  lemma EmptiesWithin(a: seq<FixedArgument>, b: seq<FixedArgument>)
    requires forall fix | fix in a :: fix in b
    ensures Empties(a) <= Empties(b)
  {
    forall v | v in Empties(a) ensures v in Empties(b) {
      var k :| 0 <= k < |a| && a[k].value.ReferenceTemplate? && v in Variables(a[k].value.template);
      assert a[k] in b;
      var j :| 0 <= j < |b| && b[j] == a[k];
    }
  }

  lemma StatedRewritesIff(rule: Stated, valid: string -> bool, name: string, next: string, m: Bindings)
    requires Acceptable(rule, valid)
    ensures Apply(Built(rule), valid, name) == Some((next, m)) <==> StatedRewrites(rule, valid, name, next, m)
  {
    ApplyIff(Built(rule), valid, name, next, m);
    PartIsStated(rule);
    SameEmpties(rule.fixes, PartOf(rule).fixes);
    if rule.template {
      var template := Pattern(rule.from).value;
      PatternIff(rule.from, template);
      forall other: Template ensures Writes(other, rule.from) <==> other == template {
        PatternIff(rule.from, other);
      }
      if '{' in rule.to {
        var to := Pattern(rule.to).value;
        forall other: Template ensures Writes(other, rule.to) <==> other == to {
          PatternIff(rule.to, other);
        }
      }
    }
  }
}
