// Rewrite rules (crates/ikigai-core/src/alias.rs): what a rule may state, and what applying it to
// a name gives.
//
// Whether a text is an IRI is a parameter, `valid`; names are sequences of characters.

module AliasRules {
  import opened Wrappers
  import opened Sorting
  import opened Utf8
  import opened Grammar
  import opened ContractIris

  // A parsed URI template.
  type Template = parts: seq<Part> | WellFormed(parts) witness []

  datatype RuleKind = Exact | Prefix
  datatype MatchKind = ExactMatch | PrefixMatch | TemplateMatch
  datatype ResolveAt = Child | Root

  // How a named request gives one argument of its target.
  datatype FixedValue =
    | Value(text: string)
    | Reference(iri: string)
    | ReferenceTemplate(template: Template)
    | Capture(name: string)

  datatype FixedArgument = FixedArgument(name: string, value: FixedValue)

  // A declared input: its default, whether it is a binding, and whether it carries no more than a
  // declaration states.
  datatype Input = Input(name: string, default: Option<string>, binding: bool, declarable: bool)

  datatype RequestPart = RequestPart(
    template: Option<Template>,
    target: Option<Template>,
    verb: Option<Verb>,
    fixes: seq<FixedArgument>,
    inputs: seq<Input>)
  {
    predicate IsEmpty() { template.None? && verb.None? && fixes == [] && inputs == [] }
  }

  const PLAIN := RequestPart(None, None, None, [], [])

  datatype Rule = Rule(kind: RuleKind, from: string, to: string, at: ResolveAt, request: RequestPart)
  {
    function Matches(): MatchKind {
      if request.template.Some? then TemplateMatch else if kind.Exact? then ExactMatch else PrefixMatch
    }

    predicate IsNamedRequest() { !request.IsEmpty() }
  }

  // A rule as it is stated, before it is checked.
  datatype Stated = Stated(
    kind: RuleKind,
    from: string,
    to: string,
    at: ResolveAt,
    template: bool,
    verb: Option<Verb>,
    fixes: seq<FixedArgument>,
    inputs: seq<Input>)
  {
    predicate Named() { template || verb.Some? || fixes != [] || inputs != [] }
  }

  // ---- checking a stated rule ----

  datatype Refusal =
    | NotAtRoot
    | PrefixTemplate
    | BadPattern(text: string)
    | NoVariable
    | UnknownVariable(name: string)
    | BoundMeta
    | BadName(name: string)
    | FixesAs
    | Twice(name: string)
    | PlainReference(name: string)
    | BadReference(name: string)
    | BindingInput(name: string)
    | TooMuch(name: string)

  predicate Forbidden(c: char) { c as int <= 0x20 || c in "<>\"{}|^`\\" }

  predicate IriSafe(s: string) { forall k | 0 <= k < |s| :: !Forbidden(s[k]) }

  predicate GoodName(name: string) { name != "" && IriSafe(name) }

  function Samples(names: seq<string>): Bindings {
    map name | name in names :: "segment"
  }

  predicate GoodReference(template: Template, vars: seq<string>, valid: string -> bool) {
    && Variables(template) != []
    && (forall v | v in Variables(template) :: v in vars)
    && var sample := Expand(template, Samples(Variables(template)));
       sample.Some? && valid(sample.value)
  }

  predicate GoodFix(argument: FixedArgument, vars: seq<string>, valid: string -> bool) {
    && GoodName(argument.name) && argument.name != "as"
    && (argument.value.ReferenceTemplate? ==> GoodReference(argument.value.template, vars, valid))
    && (argument.value.Capture? ==> argument.value.name in vars)
  }

  predicate GoodInput(input: Input) {
    GoodName(input.name) && !input.binding && input.declarable
  }

  // The variables a rule's logical name captures.
  function Vars(rule: Stated): seq<string> {
    if rule.template && Parse(rule.from).Ok? then Variables(Parse(rule.from).value) else []
  }

  function FixNames(fixes: seq<FixedArgument>): seq<string> {
    seq(|fixes|, k requires 0 <= k < |fixes| => fixes[k].name)
  }

  function InputNames(inputs: seq<Input>): seq<string> {
    seq(|inputs|, k requires 0 <= k < |inputs| => inputs[k].name)
  }

  predicate GoodTarget(rule: Stated) {
    '{' in rule.to ==> Parse(rule.to).Ok? && forall v | v in Variables(Parse(rule.to).value) :: v in Vars(rule)
  }

  // What a named request must be to mean one thing.
  predicate Acceptable(rule: Stated, valid: string -> bool) {
    rule.Named() ==>
      && rule.at.Root?
      && (rule.template ==> rule.kind.Exact? && Parse(rule.from).Ok? && Vars(rule) != [])
      && GoodTarget(rule)
      && rule.verb != Some(Meta)
      && (forall k | 0 <= k < |rule.fixes| :: GoodFix(rule.fixes[k], Vars(rule), valid))
      && (forall k | 0 <= k < |rule.inputs| :: GoodInput(rule.inputs[k]))
      && Distinct(FixNames(rule.fixes) + InputNames(rule.inputs))
  }

  function ArgumentKey(argument: FixedArgument): seq<int> { Encode(argument.name) }
  function InputKey(input: Input): seq<int> { Encode(input.name) }

  function Pattern(text: string): (t: Option<Template>) {
    match Parse(text)
    case Err(_) => None
    case Ok(parts) =>
      ParseIsInverse(text, parts);
      Some(parts)
  }

  function PartOf(rule: Stated): RequestPart {
    if !rule.Named() then PLAIN
    else RequestPart(
      if rule.template then Pattern(rule.from) else None,
      if '{' in rule.to then Pattern(rule.to) else None,
      rule.verb,
      StableSort(rule.fixes, ArgumentKey),
      StableSort(rule.inputs, InputKey))
  }

  // ---- why a rule is refused ----

  // The template a text is, if it is one.
  ghost predicate Writes(template: seq<Part>, text: string) { WellFormed(template) && Render(template) == text }

  // The logical name is a template of the variable.
  ghost predicate Catches(rule: Stated, v: string) {
    rule.template && exists template :: Writes(template, rule.from) && v in Variables(template)
  }

  // The canonical name or something fixed uses the variable.
  ghost predicate Uses(rule: Stated, v: string) {
    || ('{' in rule.to && exists to :: Writes(to, rule.to) && v in Variables(to))
    || exists fix | fix in rule.fixes :: FixUses(fix, v)
  }

  ghost predicate FixUses(fix: FixedArgument, v: string) {
    match fix.value
    case ReferenceTemplate(template) => v in Variables(template)
    case Capture(name) => v == name
    case _ => false
  }

  // Fixed or declared.
  ghost predicate Bears(rule: Stated, name: string) {
    (exists fix | fix in rule.fixes :: fix.name == name) || exists input | input in rule.inputs :: input.name == name
  }

  // A control, a space, or one of the nine other characters an IRIREF of Turtle may not hold.
  predicate Unwritable(c: char) {
    || c <= ' ' || c == '<' || c == '>' || c == '"' || c == '{' || c == '}'
    || c == '|' || c == '^' || c == '`' || c == '\\'
  }

  ghost predicate TwiceIn(names: seq<string>, name: string) {
    exists i, j :: 0 <= i < j < |names| && names[i] == name == names[j]
  }

  // The reference with the word `segment` in every variable.
  function SampleText(template: seq<Part>): string { FillIn(template, seq(|Variables(template)|, _ => "segment")) }

  // What each refusal says of a rule.
  ghost predicate Deserves(rule: Stated, valid: string -> bool, reason: Refusal) {
    match reason
    case NotAtRoot => rule.at == Child
    case PrefixTemplate => rule.template && rule.kind == Prefix
    case BadPattern(text) =>
      && ((text == rule.from && rule.template) || (text == rule.to && '{' in rule.to))
      && forall template :: !Writes(template, text)
    case NoVariable => rule.template && exists template :: Writes(template, rule.from) && Variables(template) == []
    case UnknownVariable(v) => Uses(rule, v) && !Catches(rule, v)
    case BoundMeta => rule.verb == Some(Meta)
    case BadName(name) => Bears(rule, name) && (name == "" || exists c | c in name :: Unwritable(c))
    case FixesAs => exists fix | fix in rule.fixes :: fix.name == "as"
    case Twice(name) => TwiceIn(FixNames(rule.fixes) + InputNames(rule.inputs), name)
    case PlainReference(name) =>
      exists fix | fix in rule.fixes ::
        fix.name == name && fix.value.ReferenceTemplate? && Variables(fix.value.template) == []
    case BadReference(name) =>
      exists fix | fix in rule.fixes ::
        fix.name == name && fix.value.ReferenceTemplate? && !valid(SampleText(fix.value.template))
    case BindingInput(name) => exists input | input in rule.inputs :: input.name == name && input.binding
    case TooMuch(name) => exists input | input in rule.inputs :: input.name == name && !input.declarable
  }

  lemma ParsesAs(text: string, template: seq<Part>)
    ensures Writes(template, text) <==> Parse(text) == Ok(template)
  {
    ParseIsInverse(text, template);
  }

  lemma BadText(text: string)
    requires Parse(text).Err?
    ensures forall template :: !Writes(template, text)
  {
    forall template ensures !Writes(template, text) {
      ParsesAs(text, template);
    }
  }

  lemma CatchesIff(rule: Stated, v: string)
    ensures Catches(rule, v) <==> v in Vars(rule)
  {
    if rule.template {
      if template :| Writes(template, rule.from) && v in Variables(template) {
        ParsesAs(rule.from, template);
      }
      if Parse(rule.from).Ok? {
        ParsesAs(rule.from, Parse(rule.from).value);
      }
    }
  }

  lemma UnwritableIff(name: string)
    ensures IriSafe(name) <==> forall c | c in name :: !Unwritable(c)
  {
    forall c ensures Forbidden(c) <==> Unwritable(c) {
      assert "<>\"{}|^`\\" == ['<', '>', '"', '{', '}', '|', '^', '`', '\\'];
    }
  }

  lemma SampleIs(template: seq<Part>)
    ensures Expand(template, Samples(Variables(template))) == Some(SampleText(template))
  {
    var names := Variables(template);
    assert forall k | 0 <= k < |names| :: names[k] in names;
    ExpandFillsIn(template, Samples(names), seq(|names|, _ => "segment"));
  }

  // The rule an accepted statement becomes.
  function Built(rule: Stated): Rule { Rule(rule.kind, rule.from, rule.to, rule.at, PartOf(rule)) }

  // The check, part by part as the source runs it: a rule is refused exactly when it is not
  // acceptable.
  method RequestPartOf(rule: Stated, valid: string -> bool) returns (r: Result<RequestPart, Refusal>)
    ensures r.Ok? <==> Acceptable(rule, valid)
    ensures r.Ok? ==> r.value == PartOf(rule)
    ensures r.Err? ==> Deserves(rule, valid, r.error)
  {
    if !rule.Named() {
      return Ok(PLAIN);
    }
    if rule.at != Root {
      return Err(NotAtRoot);
    }
    var template: Option<Template> := None;
    if rule.template {
      if rule.kind != Exact {
        return Err(PrefixTemplate);
      }
      template := Pattern(rule.from);
      if template.None? {
        BadText(rule.from);
        return Err(BadPattern(rule.from));
      }
      ParsesAs(rule.from, template.value);
      if Variables(template.value) == [] {
        return Err(NoVariable);
      }
    }
    var vars := if template.Some? then Variables(template.value) else [];
    assert vars == Vars(rule);
    var target: Option<Template> := None;
    if '{' in rule.to {
      target := Pattern(rule.to);
      if target.None? {
        BadText(rule.to);
        return Err(BadPattern(rule.to));
      }
      var unknown := FirstUnknown(Variables(target.value), vars);
      if unknown.Some? {
        ParsesAs(rule.to, target.value);
        CatchesIff(rule, unknown.value);
        return Err(UnknownVariable(unknown.value));
      }
    }
    if rule.verb == Some(Meta) {
      return Err(BoundMeta);
    }
    var refused := CheckNames(rule, vars, valid);
    if refused.Some? {
      return Err(refused.value);
    }
    return Ok(RequestPart(template, target, rule.verb, StableSort(rule.fixes, ArgumentKey),
                          StableSort(rule.inputs, InputKey)));
  }

  method FirstUnknown(used: seq<string>, vars: seq<string>) returns (unknown: Option<string>)
    ensures unknown.None? <==> forall v | v in used :: v in vars
    ensures unknown.Some? ==> unknown.value in used && unknown.value !in vars
  {
    for k := 0 to |used|
      invariant forall j | 0 <= j < k :: used[j] in vars
    {
      if used[k] !in vars {
        return Some(used[k]);
      }
    }
    return None;
  }

  // The fixed and declared names, in turn, each held against the ones before it.
  method CheckNames(rule: Stated, vars: seq<string>, valid: string -> bool) returns (refused: Option<Refusal>)
    requires vars == Vars(rule)
    ensures refused.None? <==>
              && (forall k | 0 <= k < |rule.fixes| :: GoodFix(rule.fixes[k], vars, valid))
              && (forall k | 0 <= k < |rule.inputs| :: GoodInput(rule.inputs[k]))
              && Distinct(FixNames(rule.fixes) + InputNames(rule.inputs))
    ensures refused.Some? ==> Deserves(rule, valid, refused.value)
  {
    var all := FixNames(rule.fixes) + InputNames(rule.inputs);
    var names: seq<string> := [];
    for k := 0 to |rule.fixes|
      invariant names == all[..k] && Distinct(names)
      invariant forall j | 0 <= j < k :: GoodFix(rule.fixes[j], vars, valid)
    {
      var argument := rule.fixes[k];
      assert all[k] == argument.name && all[..k + 1] == all[..k] + [all[k]];
      if !GoodName(argument.name) {
        BadFixName(rule, valid, k);
        return Some(BadName(argument.name));
      }
      if argument.name == "as" {
        return Some(FixesAs);
      }
      if argument.name in names {
        Repeats(all, k);
        return Some(Twice(argument.name));
      }
      refused := CheckValue(argument, vars, valid);
      if refused.Some? {
        BadValue(rule, valid, k, refused.value);
        return;
      }
      names := names + [argument.name];
    }
    for k := 0 to |rule.inputs|
      invariant names == all[..|rule.fixes| + k] && Distinct(names)
      invariant forall j | 0 <= j < k :: GoodInput(rule.inputs[j])
    {
      var input := rule.inputs[k];
      var at := |rule.fixes| + k;
      assert all[at] == input.name && all[..at + 1] == all[..at] + [all[at]];
      if !GoodName(input.name) {
        BadInputName(rule, valid, k);
        return Some(BadName(input.name));
      }
      if input.name in names {
        Repeats(all, at);
        return Some(Twice(input.name));
      }
      if input.binding {
        return Some(BindingInput(input.name));
      }
      if !input.declarable {
        return Some(TooMuch(input.name));
      }
      names := names + [input.name];
    }
    assert names == all;
    return None;
  }

  lemma Repeats(all: seq<string>, k: nat)
    requires k < |all| && all[k] in all[..k]
    ensures !Distinct(all) && TwiceIn(all, all[k])
  {
    var j :| 0 <= j < k && all[..k][j] == all[k];
    assert all[j] == all[k];
  }

  lemma BadFixName(rule: Stated, valid: string -> bool, k: nat)
    requires k < |rule.fixes| && !GoodName(rule.fixes[k].name)
    ensures Deserves(rule, valid, BadName(rule.fixes[k].name))
  {
    UnwritableIff(rule.fixes[k].name);
    assert rule.fixes[k] in rule.fixes;
  }

  lemma BadInputName(rule: Stated, valid: string -> bool, k: nat)
    requires k < |rule.inputs| && !GoodName(rule.inputs[k].name)
    ensures Deserves(rule, valid, BadName(rule.inputs[k].name))
  {
    UnwritableIff(rule.inputs[k].name);
    assert rule.inputs[k] in rule.inputs;
  }

  // What a fixed value alone is refused for.
  ghost predicate ValueDeserves(argument: FixedArgument, vars: seq<string>, valid: string -> bool, reason: Refusal) {
    match reason
    case UnknownVariable(v) => FixUses(argument, v) && v !in vars
    case PlainReference(name) =>
      name == argument.name && argument.value.ReferenceTemplate? && Variables(argument.value.template) == []
    case BadReference(name) =>
      name == argument.name && argument.value.ReferenceTemplate? && !valid(SampleText(argument.value.template))
    case _ => false
  }

  lemma BadValue(rule: Stated, valid: string -> bool, k: nat, reason: Refusal)
    requires k < |rule.fixes| && ValueDeserves(rule.fixes[k], Vars(rule), valid, reason)
    ensures Deserves(rule, valid, reason)
  {
    assert rule.fixes[k] in rule.fixes;
    if reason.UnknownVariable? {
      CatchesIff(rule, reason.name);
    }
  }

  method CheckValue(argument: FixedArgument, vars: seq<string>, valid: string -> bool)
    returns (refused: Option<Refusal>)
    requires GoodName(argument.name) && argument.name != "as"
    ensures refused.None? <==> GoodFix(argument, vars, valid)
    ensures refused.Some? ==> ValueDeserves(argument, vars, valid, refused.value)
  {
    match argument.value
    case ReferenceTemplate(template) =>
      var used := Variables(template);
      var unknown := FirstUnknown(used, vars);
      if unknown.Some? {
        return Some(UnknownVariable(unknown.value));
      }
      if used == [] {
        return Some(PlainReference(argument.name));
      }
      SampleIs(template);
      if !valid(Expand(template, Samples(used)).value) {
        return Some(BadReference(argument.name));
      }
      return None;
    case Capture(name) =>
      return if name in vars then None else Some(UnknownVariable(name));
    case _ =>
      return None;
  }

  // So a rule is accepted exactly when it is plain or deserves no refusal.
  lemma AcceptableIff(rule: Stated, valid: string -> bool)
    ensures Acceptable(rule, valid) <==> !rule.Named() || forall reason :: !Deserves(rule, valid, reason)
  {
    if rule.Named() {
      if Acceptable(rule, valid) {
        forall reason ensures !Deserves(rule, valid, reason) {
          NoneDeserved(rule, valid, reason);
        }
      } else {
        var reason := SomeDeserved(rule, valid);
      }
    }
  }

  lemma NoneDeserved(rule: Stated, valid: string -> bool, reason: Refusal)
    requires rule.Named() && Acceptable(rule, valid)
    ensures !Deserves(rule, valid, reason)
  {
    match reason
    case BadPattern(text) =>
      if Parse(text).Ok? {
        ParsesAs(text, Parse(text).value);
      }
    case NoVariable =>
      if template :| Writes(template, rule.from) && Variables(template) == [] {
        ParsesAs(rule.from, template);
      }
    case UnknownVariable(v) =>
      CatchesIff(rule, v);
      if Uses(rule, v) {
        UsesAreCaught(rule, valid, v);
      }
    case BadName(name) => UnwritableIff(name);
    case BadReference(name) =>
      forall fix | fix in rule.fixes && fix.value.ReferenceTemplate? ensures valid(SampleText(fix.value.template)) {
        var k :| 0 <= k < |rule.fixes| && rule.fixes[k] == fix;
        SampleIs(fix.value.template);
        assert GoodFix(rule.fixes[k], Vars(rule), valid);
      }
    case _ =>
  }

  lemma UsesAreCaught(rule: Stated, valid: string -> bool, v: string)
    requires rule.Named() && Acceptable(rule, valid) && Uses(rule, v)
    ensures v in Vars(rule)
  {
    if '{' in rule.to && exists to :: Writes(to, rule.to) && v in Variables(to) {
      var to :| Writes(to, rule.to) && v in Variables(to);
      ParsesAs(rule.to, to);
    } else {
      var fix :| fix in rule.fixes && FixUses(fix, v);
      var k :| 0 <= k < |rule.fixes| && rule.fixes[k] == fix;
      assert GoodFix(rule.fixes[k], Vars(rule), valid);
    }
  }

  // What an unacceptable rule deserves, part by part.
  lemma SomeDeserved(rule: Stated, valid: string -> bool) returns (reason: Refusal)
    requires rule.Named() && !Acceptable(rule, valid)
    ensures Deserves(rule, valid, reason)
  {
    if rule.at == Child {
      reason := NotAtRoot;
    } else if rule.template && rule.kind == Prefix {
      reason := PrefixTemplate;
    } else if rule.template && Parse(rule.from).Err? {
      BadText(rule.from);
      reason := BadPattern(rule.from);
    } else if rule.template && Vars(rule) == [] {
      ParsesAs(rule.from, Parse(rule.from).value);
      reason := NoVariable;
    } else if !GoodTarget(rule) {
      reason := BadTarget(rule, valid);
    } else if rule.verb == Some(Meta) {
      reason := BoundMeta;
    } else {
      reason := BadArguments(rule, valid);
    }
  }

  lemma BadTarget(rule: Stated, valid: string -> bool) returns (reason: Refusal)
    requires !GoodTarget(rule)
    ensures Deserves(rule, valid, reason)
  {
    if Parse(rule.to).Err? {
      BadText(rule.to);
      reason := BadPattern(rule.to);
    } else {
      var v :| v in Variables(Parse(rule.to).value) && v !in Vars(rule);
      ParsesAs(rule.to, Parse(rule.to).value);
      CatchesIff(rule, v);
      reason := UnknownVariable(v);
    }
  }

  lemma BadArguments(rule: Stated, valid: string -> bool) returns (reason: Refusal)
    requires !((forall k | 0 <= k < |rule.fixes| :: GoodFix(rule.fixes[k], Vars(rule), valid))
               && (forall k | 0 <= k < |rule.inputs| :: GoodInput(rule.inputs[k]))
               && Distinct(FixNames(rule.fixes) + InputNames(rule.inputs)))
    ensures Deserves(rule, valid, reason)
  {
    if k :| 0 <= k < |rule.fixes| && !GoodFix(rule.fixes[k], Vars(rule), valid) {
      reason := BadFix(rule, valid, k);
    } else if k :| 0 <= k < |rule.inputs| && !GoodInput(rule.inputs[k]) {
      var input := rule.inputs[k];
      assert input in rule.inputs;
      if !GoodName(input.name) {
        BadInputName(rule, valid, k);
        reason := BadName(input.name);
      } else {
        reason := if input.binding then BindingInput(input.name) else TooMuch(input.name);
      }
    } else {
      var all := FixNames(rule.fixes) + InputNames(rule.inputs);
      var i, j :| 0 <= i < j < |all| && all[i] == all[j];
      reason := Twice(all[i]);
    }
  }

  lemma BadFix(rule: Stated, valid: string -> bool, k: nat) returns (reason: Refusal)
    requires k < |rule.fixes| && !GoodFix(rule.fixes[k], Vars(rule), valid)
    ensures Deserves(rule, valid, reason)
  {
    var fix := rule.fixes[k];
    assert fix in rule.fixes;
    if !GoodName(fix.name) {
      BadFixName(rule, valid, k);
      return BadName(fix.name);
    }
    if fix.name == "as" {
      return FixesAs;
    }
    match fix.value
    case ReferenceTemplate(template) =>
      if Variables(template) == [] {
        reason := PlainReference(fix.name);
      } else if v :| v in Variables(template) && v !in Vars(rule) {
        reason := UnknownVariable(v);
      } else {
        SampleIs(template);
        reason := BadReference(fix.name);
      }
      BadValue(rule, valid, k, reason);
    case Capture(name) =>
      reason := UnknownVariable(name);
      BadValue(rule, valid, k, reason);
    case _ =>
  }

  // What the check leaves of a rule: its templates are its names', the canonical name uses only
  // what the logical one captures, and so does everything it fixes.
  predicate Sound(rule: Rule) {
    var vars := if rule.request.template.Some? then Variables(rule.request.template.value) else [];
    && (rule.request.template.Some? ==> rule.kind.Exact? && Parse(rule.from) == Ok(rule.request.template.value))
    && (rule.request.target.Some? ==> forall v | v in Variables(rule.request.target.value) :: v in vars)
    && (forall k | 0 <= k < |rule.request.fixes| ::
          rule.request.fixes[k].value.Capture? ==> rule.request.fixes[k].value.name in vars)
  }

  lemma AcceptedIsSound(rule: Stated, valid: string -> bool)
    requires Acceptable(rule, valid)
    ensures Sound(Built(rule))
  {
    if rule.Named() {
      StableSortSorts(rule.fixes, ArgumentKey);
      var fixes := StableSort(rule.fixes, ArgumentKey);
      forall k | 0 <= k < |fixes| && fixes[k].value.Capture? ensures fixes[k].value.name in Vars(rule) {
        assert fixes[k] in fixes && fixes[k] in rule.fixes;
      }
    }
  }

  // ---- applying a rule ----

  // The variables a named request lets be empty: those of its reference templates.
  function MayBeEmpty(fixes: seq<FixedArgument>): seq<string> {
    if fixes == [] then []
    else
      (if fixes[0].value.ReferenceTemplate? then Variables(fixes[0].value.template) else []) + MayBeEmpty(fixes[1..])
  }

  function NameSet(names: seq<string>): set<string> { set name | name in names }

  function Captures(rule: Rule, template: Template, target: string): Option<Bindings> {
    var whole := Match(template, target, {});
    if whole.Some? then whole
    else if MayBeEmpty(rule.request.fixes) == [] then None
    else Match(template, target, NameSet(MayBeEmpty(rule.request.fixes)))
  }

  // The name a rule rewrites `target` to, with what a template captured, or nothing when it does
  // not match.
  function Apply(rule: Rule, valid: string -> bool, target: string): Option<(string, Bindings)> {
    match rule.request.template
    case Some(template) =>
      if !valid(target) then None
      else
        (match Captures(rule, template, target)
         case None => None
         case Some(captures) =>
           match rule.request.target
           case None => Some((rule.to, captures))
           case Some(to) =>
             match Expand(to, captures)
             case None => None
             case Some(next) => Some((next, captures)))
    case None =>
      match rule.kind
      case Exact => if target == rule.from then Some((rule.to, map[])) else None
      case Prefix =>
        match StripPrefix(target, rule.from)
        case None => None
        case Some(rest) => Some((rule.to + rest, map[]))
  }

  // A match binds every variable of its template.
  lemma MatchBindsAll(template: Template, target: string, empty: set<string>)
    requires Match(template, target, empty).Some?
    ensures forall v | v in Variables(template) :: v in Match(template, target, empty).value
  {
    var spans := Search(template, 0, target, 0, empty).value;
    SearchIsLeftmost(template, 0, target, 0, empty);
    SplitsAreSpans(template, 0, target, 0, spans, empty);
    assert template[0..] == template;
    var names := Variables(template);
    forall v | v in names ensures v in Match(template, target, empty).value {
      var k :| 0 <= k < |names| && names[k] == v;
      BindKeepsLast(names, spans, target, |names|, k);
    }
  }

  // A checked rule whose logical name matches always rewrites: no captured variable is ever
  // missing, from the canonical name or from a capture it fixes.
  lemma MatchedRuleRewrites(rule: Rule, valid: string -> bool, target: string)
    requires Sound(rule)
    ensures Apply(rule, valid, target).None? <==>
              match rule.request.template
              case Some(template) => !valid(target) || Captures(rule, template, target).None?
              case None => if rule.kind.Exact? then target != rule.from else !(rule.from <= target)
    ensures Apply(rule, valid, target).Some? ==>
              forall k | 0 <= k < |rule.request.fixes| && rule.request.fixes[k].value.Capture? ::
                rule.request.fixes[k].value.name in Apply(rule, valid, target).value.1
  {
    if rule.request.template.Some? {
      var template := rule.request.template.value;
      var captures := Captures(rule, template, target);
      if captures.Some? {
        MatchBindsAll(template, target,
                      if Match(template, target, {}).Some? then {} else NameSet(MayBeEmpty(rule.request.fixes)));
        if rule.request.target.Some? {
          ExpandsWhenBound(rule.request.target.value, captures.value);
        }
      }
    }
  }

  // With distinct variables, what a template rule matches is its logical name filled in with what
  // it captured.
  lemma CapturesRebuildName(rule: Rule, valid: string -> bool, target: string)
    requires Sound(rule) && rule.request.template.Some? && Distinct(Variables(rule.request.template.value))
    requires Apply(rule, valid, target).Some?
    ensures Expand(rule.request.template.value, Apply(rule, valid, target).value.1) == Some(target)
  {
    var template := rule.request.template.value;
    if Match(template, target, {}).Some? {
      ReexpandsMatch(template, target, {});
    } else {
      ReexpandsMatch(template, target, NameSet(MayBeEmpty(rule.request.fixes)));
    }
  }
}
