// Views (crates/ikigai-core/src/alias.rs:1435-1598): replaying a walk so that each named request's
// captures are known, and the request a view forwards.
//
// Filling a reference template in is a parameter, `fill`, and so is holding a value to a declared
// input's contract, `held`. What the view's description says is not part of this model.

module AliasViews {
  import opened Wrappers
  import opened Grammar
  import opened ContractIris
  import opened AliasRules
  import opened AliasTables
  import opened AliasWalk

  datatype Arg = Inline(text: string) | ByReference(iri: string)

  // A fixed argument as it is sent, or why it cannot be.
  datatype Bound = Bound(name: string, sent: Result<Arg, string>)

  // One named request of a chain, its captures settled.
  datatype BoundPart = BoundPart(name: string, verb: Option<Verb>, fixed: seq<Bound>, inputs: seq<Input>)

  datatype View = View(target: string, parts: seq<BoundPart>)

  type Fill = (Template, Bindings) -> Result<string, string>

  // ---- what a view should be ----

  // How one fixed argument is sent: as written, as a reference, or as the text captured.
  function Sent(value: FixedValue, captures: Bindings, fill: Fill): Option<Result<Arg, string>> {
    match value
    case Value(text) => Some(Ok(Inline(text)))
    case Reference(iri) => Some(Ok(ByReference(iri)))
    case ReferenceTemplate(template) =>
      (match fill(template, captures)
       case Ok(iri) => Some(Ok(ByReference(iri)))
       case Err(e) => Some(Err(e)))
    case Capture(name) => if name in captures then Some(Ok(Inline(captures[name]))) else None
  }

  // The parts a chain of rules passes through from `current`: for each named request, the name it
  // matched and every fixed argument as sent.
  ghost predicate Replays(rules: seq<Rule>, valid: string -> bool, fill: Fill, current: string, applied: seq<nat>,
                          view: View)
    decreases |applied|
  {
    if applied == [] then view == View(current, [])
    else
      && applied[0] < |rules|
      && var rule := rules[applied[0]];
         var rewritten := Apply(rule, valid, current);
         && rewritten.Some? && valid(rewritten.value.0)
         && if !rule.IsNamedRequest()
            then Replays(rules, valid, fill, rewritten.value.0, applied[1..], view)
            else
              && view.parts != []
              && Settles(rule, current, rewritten.value.1, fill, view.parts[0])
              && Replays(rules, valid, fill, rewritten.value.0, applied[1..], View(view.target, view.parts[1..]))
  }

  ghost predicate Settles(rule: Rule, name: string, captures: Bindings, fill: Fill, part: BoundPart) {
    && part.name == name && part.verb == rule.request.verb && part.inputs == rule.request.inputs
    && SettlesAll(rule.request.fixes, captures, fill, part.fixed)
  }

  ghost predicate SettlesAll(fixes: seq<FixedArgument>, captures: Bindings, fill: Fill, fixed: seq<Bound>) {
    && |fixed| == |fixes|
    && forall k | 0 <= k < |fixes| ::
         fixed[k].name == fixes[k].name && Sent(fixes[k].value, captures, fill) == Some(fixed[k].sent)
  }

  // ---- the view ----

  // Every fixed argument of one rule, or nothing when a capture it sends was not captured.
  function Settled(fixes: seq<FixedArgument>, captures: Bindings, fill: Fill): Option<seq<Bound>> {
    if fixes == [] then Some([])
    else
      match Settled(fixes[..|fixes| - 1], captures, fill)
      case None => None
      case Some(fixed) =>
        var last := fixes[|fixes| - 1];
        match Sent(last.value, captures, fill)
        case None => None
        case Some(sent) => Some(fixed + [Bound(last.name, sent)])
  }

  // What one rule of the chain adds.
  function PartsOf(rule: Rule, name: string, captures: Bindings, fill: Fill): Option<seq<BoundPart>> {
    if !rule.IsNamedRequest() then Some([])
    else
      match Settled(rule.request.fixes, captures, fill)
      case None => None
      case Some(fixed) => Some([BoundPart(name, rule.request.verb, fixed, rule.request.inputs)])
  }

  function Before(parts: seq<BoundPart>, rest: Option<View>): Option<View> {
    match rest
    case None => None
    case Some(view) => Some(View(view.target, parts + view.parts))
  }

  function ReplayFrom(rules: seq<Rule>, valid: string -> bool, fill: Fill, current: string, applied: seq<nat>,
                      canonical: string): Option<View>
    decreases |applied|
  {
    if applied == [] then if current == canonical then Some(View(current, [])) else None
    else if applied[0] >= |rules| then None
    else
      match Apply(rules[applied[0]], valid, current)
      case None => None
      case Some((next, captures)) =>
        match PartsOf(rules[applied[0]], current, captures, fill)
        case None => None
        case Some(parts) =>
          if valid(next) then Before(parts, ReplayFrom(rules, valid, fill, next, applied[1..], canonical)) else None
  }

  // A hop through no rule is no hop.
  function ReplayHop(rules: seq<Rule>, valid: string -> bool, fill: Fill, logical: string, applied: seq<nat>,
                     canonical: string): Option<View> {
    if applied == [] then None else ReplayFrom(rules, valid, fill, logical, applied, canonical)
  }

  lemma BeforeTwice(a: seq<BoundPart>, b: seq<BoundPart>, rest: Option<View>)
    ensures Before(a, Before(b, rest)) == Before(a + b, rest)
  {
    if rest.Some? {
      assert a + (b + rest.value.parts) == a + b + rest.value.parts;
    }
  }

  lemma BeforeNothing(rest: Option<View>)
    ensures Before([], rest) == rest
  {
    if rest.Some? {
      assert [] + rest.value.parts == rest.value.parts;
    }
  }

  method Settle(fixes: seq<FixedArgument>, captures: Bindings, fill: Fill) returns (fixed: Option<seq<Bound>>)
    ensures fixed == Settled(fixes, captures, fill)
  {
    var settled: seq<Bound> := [];
    for k := 0 to |fixes|
      invariant Settled(fixes[..k], captures, fill) == Some(settled)
    {
      assert fixes[..k + 1][..k] == fixes[..k];
      var sent := Sent(fixes[k].value, captures, fill);
      if sent.None? {
        NeverSettled(fixes, captures, fill, k + 1);
        return None;
      }
      settled := settled + [Bound(fixes[k].name, sent.value)];
    }
    assert fixes[..|fixes|] == fixes;
    return Some(settled);
  }

  lemma {:induction false} NeverSettled(fixes: seq<FixedArgument>, captures: Bindings, fill: Fill, k: nat)
    requires k <= |fixes| && Settled(fixes[..k], captures, fill).None?
    ensures Settled(fixes, captures, fill).None?
    decreases |fixes| - k
  {
    if k < |fixes| {
      assert fixes[..k + 1][..k] == fixes[..k];
      NeverSettled(fixes, captures, fill, k + 1);
    } else {
      assert fixes[..k] == fixes;
    }
  }

  // Replay a hop from the name the caller used.
  method Replay(table: AliasTable, valid: string -> bool, fill: Fill, logical: string, canonical: string,
                applied: seq<nat>)
    returns (r: Option<View>)
    ensures r == ReplayHop(table.rules, valid, fill, logical, applied, canonical)
  {
    if applied == [] {
      return None;
    }
    var current := logical;
    var parts: seq<BoundPart> := [];
    assert applied[0..] == applied;
    BeforeNothing(ReplayFrom(table.rules, valid, fill, logical, applied, canonical));
    for place := 0 to |applied|
      invariant ReplayFrom(table.rules, valid, fill, logical, applied, canonical)
             == Before(parts, ReplayFrom(table.rules, valid, fill, current, applied[place..], canonical))
    {
      assert applied[place..][1..] == applied[place + 1..];
      if applied[place] >= |table.rules| {
        return None;
      }
      var rule := table.rules[applied[place]];
      var rewritten := Apply(rule, valid, current);
      if rewritten.None? {
        return None;
      }
      var (next, captures) := rewritten.value;
      ghost var before := parts;
      if rule.IsNamedRequest() {
        var fixed := Settle(rule.request.fixes, captures, fill);
        if fixed.None? {
          return None;
        }
        parts := parts + [BoundPart(current, rule.request.verb, fixed.value, rule.request.inputs)];
      } else {
        assert parts == before + [];
      }
      if !valid(next) {
        return None;
      }
      current := next;
      BeforeTwice(before, parts[|before|..],
                  ReplayFrom(table.rules, valid, fill, current, applied[place + 1..], canonical));
      assert parts == before + parts[|before|..];
    }
    assert applied[|applied|..] == [] && parts + [] == parts;
    return if current == canonical then Some(View(current, parts)) else None;
  }

  // ---- what a replay says, and that it never fails ----

  lemma {:induction false} SettledAll(fixes: seq<FixedArgument>, captures: Bindings, fill: Fill)
    ensures Settled(fixes, captures, fill).Some?
            <==> forall k | 0 <= k < |fixes| :: Sent(fixes[k].value, captures, fill).Some?
    ensures Settled(fixes, captures, fill).Some? ==>
              SettlesAll(fixes, captures, fill, Settled(fixes, captures, fill).value)
    decreases |fixes|
  {
    if fixes != [] {
      var front := fixes[..|fixes| - 1];
      SettledAll(front, captures, fill);
      assert forall k | 0 <= k < |front| :: front[k] == fixes[k];
      assert fixes[|fixes| - 1] == fixes[|front|];
    }
  }

  // A replayed view goes to the canonical name, and its parts are the named requests of the chain.
  lemma {:induction false} ReplayedReplays(rules: seq<Rule>, valid: string -> bool, fill: Fill, current: string,
                                           applied: seq<nat>, canonical: string)
    requires ReplayFrom(rules, valid, fill, current, applied, canonical).Some?
    ensures var view := ReplayFrom(rules, valid, fill, current, applied, canonical).value;
            view.target == canonical && Replays(rules, valid, fill, current, applied, view)
    decreases |applied|
  {
    if applied != [] {
      var (next, captures) := Apply(rules[applied[0]], valid, current).value;
      var parts := PartsOf(rules[applied[0]], current, captures, fill).value;
      var rest := ReplayFrom(rules, valid, fill, next, applied[1..], canonical).value;
      ReplayedReplays(rules, valid, fill, next, applied[1..], canonical);
      SettledAll(rules[applied[0]].request.fixes, captures, fill);
      if rules[applied[0]].IsNamedRequest() {
        assert (parts + rest.parts)[1..] == rest.parts;
      } else {
        assert [] + rest.parts == rest.parts;
      }
    }
  }

  lemma {:induction false} HopsReplay(rules: seq<Rule>, valid: string -> bool, fill: Fill, current: string,
                                      applied: seq<nat>, canonical: string)
    requires Hops(rules, valid, current, applied, canonical) && forall rule | rule in rules :: Sound(rule)
    ensures ReplayFrom(rules, valid, fill, current, applied, canonical).Some?
    decreases |applied|
  {
    if applied != [] {
      var rule := rules[applied[0]];
      var (next, captures) := Apply(rule, valid, current).value;
      MatchedRuleRewrites(rule, valid, current);
      SettledAll(rule.request.fixes, captures, fill);
      HopsReplay(rules, valid, fill, next, applied[1..], canonical);
    }
  }

  lemma CanonicalIsReached(rules: seq<Rule>, maxHops: nat, valid: string -> bool, logical: string)
    requires WalkTo(rules, maxHops, valid, logical).Aliased?
    ensures WalkTo(rules, maxHops, valid, logical).applied != []
  {
    var walked := WalkTo(rules, maxHops, valid, logical);
    AliasedIffEnds(rules, maxHops, valid, logical, walked.canonical, walked.applied);
    var n :| 1 <= n < maxHops && Ends(rules, valid, logical, n, walked.canonical)
             && walked.applied == Path(rules, valid, logical, n);
    PathLength(rules, valid, logical, n);
  }

  // A hop the table's own walk took always replays: over rules that passed the check there is no
  // walk whose view fails.
  lemma WalkedHopReplays(rules: seq<Rule>, maxHops: nat, valid: string -> bool, fill: Fill, logical: string)
    requires WalkTo(rules, maxHops, valid, logical).Aliased? && forall rule | rule in rules :: Sound(rule)
    ensures var walked := WalkTo(rules, maxHops, valid, logical);
            match ReplayHop(rules, valid, fill, logical, walked.applied, walked.canonical)
            case None => false
            case Some(view) =>
              view.target == walked.canonical && Replays(rules, valid, fill, logical, walked.applied, view)
  {
    var walked := WalkTo(rules, maxHops, valid, logical);
    CanonicalIsReached(rules, maxHops, valid, logical);
    WalkedHops(rules, maxHops, valid, logical, walked.canonical, walked.applied);
    HopsReplay(rules, valid, fill, logical, walked.applied, walked.canonical);
    ReplayedReplays(rules, valid, fill, logical, walked.applied, walked.canonical);
  }

  // Each rule of the path is the one the walk took from there, and the last leads to `canonical`.
  ghost predicate Hops(rules: seq<Rule>, valid: string -> bool, current: string, applied: seq<nat>, canonical: string)
    decreases |applied|
  {
    if applied == [] then current == canonical
    else
      && applied[0] < |rules|
      && var rewritten := Apply(rules[applied[0]], valid, current);
         rewritten.Some? && valid(rewritten.value.0)
         && Hops(rules, valid, rewritten.value.0, applied[1..], canonical)
  }

  lemma {:induction false} EndedHops(rules: seq<Rule>, valid: string -> bool, current: string, n: nat, c: string)
    requires Ends(rules, valid, current, n, c)
    ensures Hops(rules, valid, current, Path(rules, valid, current, n), c)
    decreases n
  {
    if n > 0 {
      assert Reaches(rules, valid, current, 1);
      assert After(rules, valid, current, 1).Some?;
      var (index, next) := Step(rules, valid, current).value;
      EndsFromNext(rules, valid, current, n - 1, c);
      EndedHops(rules, valid, next, n - 1, c);
      StepFromIsFirst(rules, valid, current, 0);
      assert Path(rules, valid, current, n)[1..] == Path(rules, valid, next, n - 1);
    }
  }

  lemma WalkedHops(rules: seq<Rule>, maxHops: nat, valid: string -> bool, logical: string, canonical: string,
                   applied: seq<nat>)
    requires WalkTo(rules, maxHops, valid, logical) == Aliased(canonical, applied)
    ensures Hops(rules, valid, logical, applied, canonical)
  {
    AliasedIffEnds(rules, maxHops, valid, logical, canonical, applied);
    var n :| 1 <= n < maxHops && Ends(rules, valid, logical, n, canonical) && applied == Path(rules, valid, logical, n);
    EndedHops(rules, valid, logical, n, canonical);
  }

  // Every capture a checked rule fixes is sent as the text its template captured.
  lemma CapturesAreSent(rules: seq<Rule>, valid: string -> bool, fill: Fill, rule: Rule, name: string, part: BoundPart,
                        k: nat)
    requires Apply(rule, valid, name).Some? && Settles(rule, name, Apply(rule, valid, name).value.1, fill, part)
    requires k < |rule.request.fixes| && rule.request.fixes[k].value.Capture?
    requires rule.request.template.Some? && Sound(rule) && Distinct(Variables(rule.request.template.value))
    ensures part.fixed[k].name == rule.request.fixes[k].name && part.fixed[k].sent.Ok?
            && part.fixed[k].sent.value.Inline?
    ensures exists captures: Bindings ::
              Expand(rule.request.template.value, captures) == Some(name)
              && rule.request.fixes[k].value.name in captures
              && captures[rule.request.fixes[k].value.name] == part.fixed[k].sent.value.text
  {
    CapturesRebuildName(rule, valid, name);
  }

  // ---- forwarding ----

  datatype Request = Request(verb: Verb, target: string, args: map<string, Arg>)

  datatype Failure = Unsupported(verb: Verb, name: string) | InvalidArgument(name: string)

  type Held = (Input, Arg) -> bool

  // The arguments one part leaves: each fixed one merged in where the caller gave none.
  function MergeFixed(args: map<string, Arg>, fixed: seq<Bound>): Result<map<string, Arg>, Failure>
    decreases |fixed|
  {
    if fixed == [] then Ok(args)
    else if fixed[0].name in args || fixed[0].sent.Err? then Err(InvalidArgument(fixed[0].name))
    else MergeFixed(args[fixed[0].name := fixed[0].sent.value], fixed[1..])
  }

  function WithDefault(args: map<string, Arg>, input: Input): map<string, Arg> {
    if input.default.Some? && input.name !in args then args[input.name := Inline(input.default.value)] else args
  }

  function MergeInputs(args: map<string, Arg>, inputs: seq<Input>, held: Held): Result<map<string, Arg>, Failure>
    decreases |inputs|
  {
    if inputs == [] then Ok(args)
    else
      var given := WithDefault(args, inputs[0]);
      if inputs[0].name in given && !held(inputs[0], given[inputs[0].name]) then Err(InvalidArgument(inputs[0].name))
      else MergeInputs(given, inputs[1..], held)
  }

  function MergePart(verb: Verb, args: map<string, Arg>, part: BoundPart, held: Held): Result<map<string, Arg>, Failure>
  {
    if part.verb.Some? && verb != part.verb.value && verb != Exists then Err(Unsupported(verb, part.name))
    else
      match MergeFixed(args, part.fixed)
      case Err(e) => Err(e)
      case Ok(fixed) => MergeInputs(fixed, part.inputs, held)
  }

  function MergeParts(verb: Verb, args: map<string, Arg>, parts: seq<BoundPart>, held: Held)
    : Result<map<string, Arg>, Failure>
    decreases |parts|
  {
    if parts == [] then Ok(args)
    else
      match MergePart(verb, args, parts[0], held)
      case Err(e) => Err(e)
      case Ok(merged) => MergeParts(verb, merged, parts[1..], held)
  }

  // The request a view issues, argument by argument in place.
  method Forwarded(view: View, request: Request, held: Held) returns (r: Result<Request, Failure>)
    ensures match MergeParts(request.verb, request.args, view.parts, held)
            case Ok(args) => r == Ok(Request(request.verb, view.target, args))
            case Err(e) => r == Err(e)
  {
    var args := request.args;
    assert view.parts[0..] == view.parts;
    for p := 0 to |view.parts|
      invariant MergeParts(request.verb, request.args, view.parts, held)
             == MergeParts(request.verb, args, view.parts[p..], held)
    {
      var part := view.parts[p];
      assert view.parts[p..][1..] == view.parts[p + 1..];
      if part.verb.Some? && request.verb != part.verb.value && request.verb != Exists {
        return Err(Unsupported(request.verb, part.name));
      }
      ghost var before := args;
      assert part.fixed[0..] == part.fixed;
      for k := 0 to |part.fixed|
        invariant MergeFixed(before, part.fixed) == MergeFixed(args, part.fixed[k..])
      {
        assert part.fixed[k..][1..] == part.fixed[k + 1..];
        if part.fixed[k].name in args || part.fixed[k].sent.Err? {
          return Err(InvalidArgument(part.fixed[k].name));
        }
        args := args[part.fixed[k].name := part.fixed[k].sent.value];
      }
      ghost var merged := args;
      assert part.inputs[0..] == part.inputs;
      for k := 0 to |part.inputs|
        invariant MergeInputs(merged, part.inputs, held) == MergeInputs(args, part.inputs[k..], held)
      {
        assert part.inputs[k..][1..] == part.inputs[k + 1..];
        args := WithDefault(args, part.inputs[k]);
        if part.inputs[k].name in args && !held(part.inputs[k], args[part.inputs[k].name]) {
          return Err(InvalidArgument(part.inputs[k].name));
        }
      }
    }
    return Ok(Request(request.verb, view.target, args));
  }

  // `more` says everything `args` does.
  ghost predicate Keeps(args: map<string, Arg>, more: map<string, Arg>) {
    forall name | name in args :: name in more && more[name] == args[name]
  }

  lemma {:induction false} FixedMerged(args: map<string, Arg>, fixed: seq<Bound>)
    ensures MergeFixed(args, fixed).Ok? ==>
              && Keeps(args, MergeFixed(args, fixed).value)
              && forall k | 0 <= k < |fixed| ::
                   && fixed[k].name !in args && fixed[k].sent.Ok? && fixed[k].name in MergeFixed(args, fixed).value
                   && MergeFixed(args, fixed).value[fixed[k].name] == fixed[k].sent.value
    ensures MergeFixed(args, fixed).Err? ==>
              exists k: nat :: k < |fixed| && MergeFixed(args, fixed) == Err(InvalidArgument(fixed[k].name))
                && (fixed[k].name in args || fixed[k].sent.Err?
                    || exists j: nat :: j < k && fixed[j].name == fixed[k].name)
    decreases |fixed|
  {
    if fixed != [] && fixed[0].name !in args && fixed[0].sent.Ok? {
      var next := args[fixed[0].name := fixed[0].sent.value];
      FixedMerged(next, fixed[1..]);
      if MergeFixed(next, fixed[1..]).Ok? {
        forall k | 0 <= k < |fixed|
          ensures fixed[k].name !in args && fixed[k].sent.Ok? && fixed[k].name in MergeFixed(args, fixed).value
          ensures MergeFixed(args, fixed).value[fixed[k].name] == fixed[k].sent.value
        {
          assert k > 0 ==> fixed[k] == fixed[1..][k - 1];
        }
      } else {
        var k: nat :| k < |fixed| - 1 && MergeFixed(next, fixed[1..]) == Err(InvalidArgument(fixed[1..][k].name))
          && (fixed[1..][k].name in next || fixed[1..][k].sent.Err?
              || exists j: nat :: j < k && fixed[1..][j].name == fixed[1..][k].name);
        assert fixed[k + 1] == fixed[1..][k];
        if j: nat :| j < k && fixed[1..][j].name == fixed[1..][k].name {
          assert fixed[j + 1].name == fixed[k + 1].name;
        }
      }
    }
  }

  lemma {:induction false} InputsMerged(args: map<string, Arg>, inputs: seq<Input>, held: Held)
    ensures MergeInputs(args, inputs, held).Ok? ==> Keeps(args, MergeInputs(args, inputs, held).value)
    ensures MergeInputs(args, inputs, held).Ok? ==>
              forall k | 0 <= k < |inputs| && inputs[k].default.Some? ::
                inputs[k].name in MergeInputs(args, inputs, held).value
    decreases |inputs|
  {
    if inputs != [] {
      var given := WithDefault(args, inputs[0]);
      InputsMerged(given, inputs[1..], held);
      if MergeInputs(args, inputs, held).Ok? {
        forall k | 0 <= k < |inputs| && inputs[k].default.Some?
          ensures inputs[k].name in MergeInputs(args, inputs, held).value
        {
          assert k > 0 ==> inputs[k] == inputs[1..][k - 1];
        }
      }
    }
  }

  // A forwarded request keeps every argument the caller gave as it was given, and sends every fixed
  // argument as it is fixed; the caller gave none of those.
  lemma {:induction false} ForwardedKeepsAndFixes(verb: Verb, args: map<string, Arg>, parts: seq<BoundPart>, held: Held)
    requires MergeParts(verb, args, parts, held).Ok?
    ensures Keeps(args, MergeParts(verb, args, parts, held).value)
    ensures forall p, k | 0 <= p < |parts| && 0 <= k < |parts[p].fixed| ::
              && parts[p].fixed[k].name !in args && parts[p].fixed[k].sent.Ok?
              && parts[p].fixed[k].name in MergeParts(verb, args, parts, held).value
              && MergeParts(verb, args, parts, held).value[parts[p].fixed[k].name] == parts[p].fixed[k].sent.value
    ensures forall p | 0 <= p < |parts| && parts[p].verb.Some? :: verb == parts[p].verb.value || verb == Exists
    decreases |parts|
  {
    if parts != [] {
      var part := parts[0];
      var fixed := MergeFixed(args, part.fixed).value;
      var merged := MergePart(verb, args, part, held).value;
      FixedMerged(args, part.fixed);
      InputsMerged(fixed, part.inputs, held);
      ForwardedKeepsAndFixes(verb, merged, parts[1..], held);
      forall p, k | 0 <= p < |parts| && 0 <= k < |parts[p].fixed|
        ensures parts[p].fixed[k].name !in args && parts[p].fixed[k].sent.Ok?
        ensures parts[p].fixed[k].name in MergeParts(verb, args, parts, held).value
        ensures MergeParts(verb, args, parts, held).value[parts[p].fixed[k].name] == parts[p].fixed[k].sent.value
      {
        assert p > 0 ==> parts[p] == parts[1..][p - 1];
      }
      forall p | 0 <= p < |parts| && parts[p].verb.Some? ensures verb == parts[p].verb.value || verb == Exists {
        assert p > 0 ==> parts[p] == parts[1..][p - 1];
      }
    }
  }

  // So a caller who gives a fixed argument is refused, whatever else the view does.
  lemma GivenFixedArgumentRefused(verb: Verb, args: map<string, Arg>, parts: seq<BoundPart>, held: Held, p: nat, k: nat)
    requires p < |parts| && k < |parts[p].fixed| && parts[p].fixed[k].name in args
    ensures MergeParts(verb, args, parts, held).Err?
  {
    if MergeParts(verb, args, parts, held).Ok? {
      ForwardedKeepsAndFixes(verb, args, parts, held);
    }
  }
}
