// What chains of narrowing leave of a capability (crates/ikigai-core/src/capability.rs:335-448), and
// what the result reaches when the longest rule wins (crates/ikigai-core/src/capability.rs:909-960).

module CapabilityChains {
  import opened Wrappers
  import opened Text
  import opened ContractIris
  import opened Capabilities

  datatype Narrowing = ByAttenuate(requested: set<string>) | ByClamp(carried: Capability)

  ghost function Narrow(c: Capability, step: Narrowing, valid: string -> bool): Capability {
    match step
    case ByAttenuate(requested) => Attenuate(c, requested, valid)
    case ByClamp(carried) => Clamp(c, carried, valid)
  }

  ghost function Run(c: Capability, steps: seq<Narrowing>, valid: string -> bool): Capability
    decreases |steps|
  {
    if steps == [] then c else Run(Narrow(c, steps[0], valid), steps[1..], valid)
  }

  // ---- exactly what a chain leaves ----

  // The scopes a step names, or nothing when it names every one.
  function Asked(step: Narrowing): Option<set<string>> {
    match step
    case ByAttenuate(requested) => Some(requested)
    case ByClamp(Root) => None
    case ByClamp(Scoped(scopes)) => Some(scopes)
  }

  predicate Names(step: Narrowing, scope: string) {
    Asked(step).Some? ==> scope in Asked(step).value
  }

  // Only an attenuation that does not name it sheds a principal.
  predicate Sheds(step: Narrowing, principal: string) {
    step.ByAttenuate? && PRINCIPAL_SCOPE_PREFIX + principal !in step.requested
  }

  ghost predicate Ambiguous(scopes: set<string>, valid: string -> bool) { |Principals(scopes, valid)| > 1 }

  lemma NarrowKeeps(held: set<string>, step: Narrowing, valid: string -> bool)
    ensures var left := Narrow(Scoped(held), step, valid);
            && left.Scoped?
            && (forall scope :: scope in Grants(left.scopes, valid)
                  <==> scope in Grants(held, valid) && Names(step, scope))
            && (forall scope :: scope in Exclusions(left.scopes)
                  <==> IsDeny(scope) && (scope in held || (Asked(step).Some? && scope in Asked(step).value)))
            && SinglePrincipal(left.scopes, valid)
               == match SinglePrincipal(held, valid)
                  case None => None
                  case Some(p) => if Sheds(step, p) then None else Some(p)
  {
    match step
    case ByAttenuate(requested) => AttenuateKeeps(held, requested, valid);
    case ByClamp(carried) =>
      if carried.Scoped? {
        ClampKeeps(held, carried.scopes, valid);
      }
  }

  ghost predicate AllName(steps: seq<Narrowing>, scope: string) { forall step | step in steps :: Names(step, scope) }

  ghost predicate SomeAsks(steps: seq<Narrowing>, scope: string) {
    exists step | step in steps :: Asked(step).Some? && scope in Asked(step).value
  }

  ghost predicate SomeSheds(steps: seq<Narrowing>, principal: string) {
    exists step | step in steps :: Sheds(step, principal)
  }

  lemma FirstAndRest(steps: seq<Narrowing>, s: string)
    requires steps != []
    ensures AllName(steps, s) <==> Names(steps[0], s) && AllName(steps[1..], s)
    ensures SomeAsks(steps, s) <==> (Asked(steps[0]).Some? && s in Asked(steps[0]).value) || SomeAsks(steps[1..], s)
    ensures SomeSheds(steps, s) <==> Sheds(steps[0], s) || SomeSheds(steps[1..], s)
  {
    assert steps == [steps[0]] + steps[1..];
  }

  // What a chain of steps leaves of scopes.
  ghost predicate Leaves(held: set<string>, steps: seq<Narrowing>, left: set<string>, valid: string -> bool) {
    && (forall scope :: scope in Grants(left, valid) <==> scope in Grants(held, valid) && AllName(steps, scope))
    && (forall scope :: scope in Exclusions(left) <==> IsDeny(scope) && (scope in held || SomeAsks(steps, scope)))
    && SinglePrincipal(left, valid)
       == match SinglePrincipal(held, valid)
          case None => None
          case Some(p) => if SomeSheds(steps, p) then None else Some(p)
  }

  lemma LeavesMore(held: set<string>, steps: seq<Narrowing>, left: set<string>, valid: string -> bool)
    requires steps != []
    requires Narrow(Scoped(held), steps[0], valid).Scoped?
    requires Leaves(Narrow(Scoped(held), steps[0], valid).scopes, steps[1..], left, valid)
    ensures Leaves(held, steps, left, valid)
  {
    var once := Narrow(Scoped(held), steps[0], valid).scopes;
    NarrowKeeps(held, steps[0], valid);
    forall scope ensures scope in Grants(left, valid) <==> scope in Grants(held, valid) && AllName(steps, scope) {
      FirstAndRest(steps, scope);
      assert scope in Grants(once, valid) <==> scope in Grants(held, valid) && Names(steps[0], scope);
    }
    forall scope ensures scope in Exclusions(left) <==> IsDeny(scope) && (scope in held || SomeAsks(steps, scope)) {
      FirstAndRest(steps, scope);
      assert scope in Exclusions(once)
             <==> IsDeny(scope) && (scope in held || (Asked(steps[0]).Some? && scope in Asked(steps[0]).value));
    }
    if SinglePrincipal(held, valid).Some? {
      FirstAndRest(steps, SinglePrincipal(held, valid).value);
    }
  }

  // A chain from scoped authority leaves exactly the grants every step names, every exclusion held or
  // named on the way, and the one principal unless an attenuation on the way leaves it out.
  lemma {:induction false} ChainLeaves(held: set<string>, steps: seq<Narrowing>, valid: string -> bool)
    ensures var left := Run(Scoped(held), steps, valid);
            left.Scoped? && Leaves(held, steps, left.scopes, valid)
    decreases |steps|
  {
    if steps != [] {
      NarrowKeeps(held, steps[0], valid);
      ChainLeaves(Narrow(Scoped(held), steps[0], valid).scopes, steps[1..], valid);
      LeavesMore(held, steps, Run(Scoped(held), steps, valid).scopes, valid);
    }
  }

  // So narrowing the same ways in any order, and as often, leaves the same grants, exclusions and
  // principal.
  lemma OrderIsNothing(held: set<string>, steps: seq<Narrowing>, others: seq<Narrowing>, valid: string -> bool)
    requires forall step :: step in steps <==> step in others
    ensures var left, right := Run(Scoped(held), steps, valid), Run(Scoped(held), others, valid);
            && left.Scoped? && right.Scoped?
            && Grants(left.scopes, valid) == Grants(right.scopes, valid)
            && Exclusions(left.scopes) == Exclusions(right.scopes)
            && SinglePrincipal(left.scopes, valid) == SinglePrincipal(right.scopes, valid)
  {
    ChainLeaves(held, steps, valid);
    ChainLeaves(held, others, valid);
    var left, right := Run(Scoped(held), steps, valid).scopes, Run(Scoped(held), others, valid).scopes;
    forall scope ensures scope in Grants(left, valid) <==> scope in Grants(right, valid) {
      assert AllName(steps, scope) <==> AllName(others, scope);
    }
    forall scope ensures scope in Exclusions(left) <==> scope in Exclusions(right) {
      assert SomeAsks(steps, scope) <==> SomeAsks(others, scope);
    }
    if SinglePrincipal(held, valid).Some? {
      assert SomeSheds(steps, SinglePrincipal(held, valid).value)
             <==> SomeSheds(others, SinglePrincipal(held, valid).value);
    }
  }

  // Narrowing only narrows: grants shrink, exclusions grow, the principal is the one there was or
  // none, and nothing is allowed that was not.
  lemma ChainNarrows(held: set<string>, steps: seq<Narrowing>, valid: string -> bool)
    ensures var left := Run(Scoped(held), steps, valid);
            && left.Scoped?
            && Narrower(left.scopes, held, valid)
            && (forall scope | Allows(left, scope, valid) :: Allows(Scoped(held), scope, valid))
            && (forall principal | ActsAs(left, principal, valid) :: ActsAs(Scoped(held), principal, valid))
  {
    ChainLeaves(held, steps, valid);
    var left := Run(Scoped(held), steps, valid).scopes;
    forall scope | Allows(Scoped(left), scope, valid) ensures Allows(Scoped(held), scope, valid) {
      NarrowerAllows(left, held, scope, valid);
    }
  }

  // Fewer grants, more exclusions, and the same principal or none.
  ghost predicate Narrower(left: set<string>, held: set<string>, valid: string -> bool) {
    && Grants(left, valid) <= Grants(held, valid)
    && Exclusions(held) <= Exclusions(left)
    && (SinglePrincipal(left, valid) == SinglePrincipal(held, valid) || SinglePrincipal(left, valid).None?)
  }

  lemma NarrowerAllows(left: set<string>, held: set<string>, scope: string, valid: string -> bool)
    requires Narrower(left, held, valid) && Allows(Scoped(left), scope, valid)
    ensures Allows(Scoped(held), scope, valid)
  {
    AllowsParts(left, scope, valid);
    AllowsParts(held, scope, valid);
  }

  // After one step that changes anything, a principal is carried only as the one: no chain leaves
  // several.
  lemma NarrowedIsUnambiguous(c: Capability, step: Narrowing, valid: string -> bool)
    requires Asked(step).Some?
    ensures Narrow(c, step, valid).Scoped? && !Ambiguous(Narrow(c, step, valid).scopes, valid)
  {
    var asked := Asked(step).value;
    if c.Root? {
      RootKeeps(asked, valid);
      MadeUnambiguous(Narrow(c, step, valid).scopes, Grants(asked, valid), Exclusions(asked),
                      SinglePrincipal(asked, valid), valid);
    } else {
      AttenuateKeeps(c.scopes, asked, valid);
      ClampKeeps(c.scopes, asked, valid);
      var left := Narrow(c, step, valid).scopes;
      MadeUnambiguous(left, Grants(c.scopes, valid) * Grants(asked, valid), Exclusions(c.scopes) + Exclusions(asked),
                      SinglePrincipal(left, valid), valid);
    }
  }

  lemma MadeUnambiguous(scopes: set<string>, grants: set<string>, denies: set<string>, who: Option<string>,
                        valid: string -> bool)
    requires scopes == grants + denies + Named(who)
    requires (forall s | s in grants :: PrincipalIn(s, valid).None?) && (forall s | s in denies :: IsDeny(s))
    ensures !Ambiguous(scopes, valid)
  {
    assert Principals(scopes, valid) <= Named(who);
    FewerIn(Principals(scopes, valid), Named(who));
  }

  lemma FewerIn<T>(a: set<T>, b: set<T>)
    requires a <= b
    ensures |a| <= |b|
  {
    assert b == a + (b - a);
  }

  // ---- the longest rule wins ----

  // A parameterized grammar's own rules, under `prefix`: a dash makes a rule exclude.
  ghost predicate AllowedBy(scopes: set<string>, prefix: string, covers: (string, string) -> bool, target: string,
                            rule: string)
  {
    prefix + rule in scopes && !Dashed(rule) && covers(rule, target)
  }

  ghost predicate ExcludedBy(scopes: set<string>, prefix: string, covers: (string, string) -> bool, target: string,
                             rule: string)
  {
    prefix + "-" + rule in scopes && covers(rule, target)
  }

  // The longest rule that covers the target decides, and an exclusion breaks a tie: some allow is
  // longer than every exclusion.
  ghost predicate ReachesTarget(scopes: set<string>, prefix: string, covers: (string, string) -> bool, target: string) {
    exists rule :: AllowedBy(scopes, prefix, covers, target, rule)
                   && forall other :: ExcludedBy(scopes, prefix, covers, target, other) ==> |other| < |rule|
  }

  // A grammar whose dashes are the ones narrowing keeps.
  ghost predicate Agrees(prefix: string) { forall rule :: AgreesOn(prefix, rule) }
  ghost predicate AgreesOn(prefix: string, rule: string) { IsDeny(prefix + rule) <==> Dashed(rule) }

  // Two words before the rule, and every rule agrees.
  lemma TwoWordsAgree(family: string, qualifier: string)
    requires IsWord(family) && IsWord(qualifier)
    ensures Agrees(CAP_PREFIX + family + ":" + qualifier + ":")
  {
    forall rule ensures AgreesOn(CAP_PREFIX + family + ":" + qualifier + ":", rule) {
      var after := qualifier + (":" + rule);
      var rest := family + (":" + after);
      assert CAP_PREFIX + family + ":" + qualifier + ":" + rule == CAP_PREFIX + rest;
      SplitWord(family, after);
      SplitWord(qualifier, rule);
      assert (CAP_PREFIX + rest)[|CAP_PREFIX|..] == rest;
      assert after[0] == qualifier[0] && WordStart(qualifier[0]);
    }
  }

  lemma SplitWord(word: string, after: string)
    requires IsWord(word)
    ensures SplitOnce(word + (":" + after), ':') == Some((word, after))
  {
    var rest := word + (":" + after);
    assert rest[..|word|] == word && rest[|word|] == ':' && rest[|word| + 1..] == after;
    assert forall k | 0 <= k < |word| :: WordChar(word[k]);
    FindCharIs(rest, ':', |word|);
  }

  // With one word before it, a rule that is a word, a colon and a dash is an exclusion to narrowing,
  // though its own grammar would read it as an allow.
  lemma OneWordDisagrees(family: string, word: string, rule: string)
    requires IsWord(family) && IsWord(word)
    ensures var inner := word + (":" + ("-" + rule));
            IsDeny(CAP_PREFIX + family + ":" + inner) && !Dashed(inner)
  {
    var inner := word + (":" + ("-" + rule));
    var rest := family + (":" + inner);
    assert CAP_PREFIX + family + ":" + inner == CAP_PREFIX + rest;
    assert (CAP_PREFIX + rest)[|CAP_PREFIX|..] == rest;
    SplitWord(family, inner);
    SplitWord(word, "-" + rule);
    assert inner[0] == word[0] && WordStart(word[0]);
  }

  // What a text splits into, the text and a dash split into with the dash at the end.
  lemma DashAtEnd(s: string, first: string, after: string)
    requires SplitOnce(s + "-", ':') == Some((first, after))
    ensures after != "" && after == after[..|after| - 1] + "-"
    ensures SplitOnce(s, ':') == Some((first, after[..|after| - 1]))
    ensures s == first + ":" + after[..|after| - 1]
  {
    var i := FindChar(s + "-", ':').value;
    assert i < |s| && s[i] == ':';
    assert (s + "-")[..i] == s[..i] && (s + "-")[i + 1..] == s[i + 1..] + "-";
    FindCharIs(s, ':', i);
  }

  predicate TwoWords(prefix: string, family: string, qualifier: string) {
    IsWord(family) && IsWord(qualifier) && prefix == CAP_PREFIX + family + ":" + qualifier + ":"
  }

  // After the first words, what makes a scope an exclusion.
  predicate DenyRest(rest: string) {
    match SplitOnce(rest, ':')
    case None => false
    case Some((family, after)) => IsWord(family) && (Dashed(after) || DenyRule(after))
  }

  predicate DenyRule(after: string) {
    match SplitOnce(after, ':')
    case None => false
    case Some((qualifier, rule)) => IsWord(qualifier) && Dashed(rule)
  }

  lemma DenyIs(rest: string)
    ensures IsDeny(CAP_PREFIX + rest) <==> DenyRest(rest)
  {
    assert (CAP_PREFIX + rest)[|CAP_PREFIX|..] == rest;
  }

  lemma DenyHasPrefix(prefix: string)
    requires IsDeny(prefix + "-")
    ensures CAP_PREFIX <= prefix
  {
    var whole := prefix + "-";
    assert whole[|whole| - 1] == '-' && CAP_PREFIX[|CAP_PREFIX| - 1] == ':';
    assert whole != CAP_PREFIX;
  }

  lemma DashedRest(rest: string) returns (family: string, tail: string)
    requires DenyRest(rest + "-") && !DenyRest(rest)
    ensures IsWord(family) && rest == family + ":" + tail
    ensures tail != "" ==> DenyRule(tail + "-") && !DenyRule(tail)
  {
    var after := SplitOnce(rest + "-", ':').value.1;
    family := SplitOnce(rest + "-", ':').value.0;
    DashAtEnd(rest, family, after);
    tail := after[..|after| - 1];
    assert tail != "" ==> after[0] == tail[0];
  }

  lemma PutTogether(prefix: string, lead: string, family: string, tail: string, qualifier: string)
    requires prefix == lead + (family + ":" + tail)
    ensures prefix == lead + family + ":" + tail
    ensures tail == qualifier + ":" ==> prefix == lead + family + ":" + qualifier + ":"
  {
    assert lead + family + ":" + (qualifier + ":") == lead + family + ":" + qualifier + ":";
  }

  // A prefix whose dashed rule is an exclusion, and which is none itself, is one word or two.
  lemma DashedPrefix(prefix: string) returns (family: string, tail: string)
    requires IsDeny(prefix + "-") && !IsDeny(prefix)
    ensures IsWord(family) && prefix == CAP_PREFIX + family + ":" + tail
    ensures tail == "" || exists qualifier :: TwoWords(prefix, family, qualifier)
  {
    DenyHasPrefix(prefix);
    var rest := prefix[|CAP_PREFIX|..];
    assert prefix == CAP_PREFIX + rest && prefix + "-" == CAP_PREFIX + (rest + "-");
    DenyIs(rest);
    DenyIs(rest + "-");
    family, tail := DashedRest(rest);
    var qualifier := "";
    if tail != "" {
      qualifier := SecondWord(tail);
    }
    PutTogether(prefix, CAP_PREFIX, family, tail, qualifier);
    assert tail != "" ==> TwoWords(prefix, family, qualifier);
  }

  lemma SecondWord(tail: string) returns (qualifier: string)
    requires DenyRule(tail + "-") && !DenyRule(tail)
    ensures IsWord(qualifier) && tail == qualifier + ":"
  {
    var rule := SplitOnce(tail + "-", ':').value.1;
    qualifier := SplitOnce(tail + "-", ':').value.0;
    DashAtEnd(tail, qualifier, rule);
    var lead := rule[..|rule| - 1];
    assert lead != "" ==> Dashed(lead);
    assert qualifier + ":" + "" == qualifier + ":";
  }

  // So the prefixes that agree on every rule are exactly those of two words.
  lemma AgreesIffTwoWords(prefix: string)
    ensures Agrees(prefix) <==> exists family, qualifier :: TwoWords(prefix, family, qualifier)
  {
    if Agrees(prefix) {
      AgreedIsTwoWords(prefix);
    }
    if family, qualifier :| TwoWords(prefix, family, qualifier) {
      TwoWordsAgree(family, qualifier);
    }
  }

  lemma AgreedIsTwoWords(prefix: string)
    requires Agrees(prefix)
    ensures exists family, qualifier :: TwoWords(prefix, family, qualifier)
  {
    assert prefix + "" == prefix && AgreesOn(prefix, "-") && AgreesOn(prefix, "");
    var family, tail := DashedPrefix(prefix);
    if tail == "" {
      assert CAP_PREFIX + family + ":" + tail == CAP_PREFIX + family + ":";
      OneWordAgreesNot(family);
    }
  }

  lemma OneWordAgreesNot(family: string)
    requires IsWord(family)
    ensures !Agrees(CAP_PREFIX + family + ":")
  {
    OneWordDisagrees(family, "a", "");
    assert !AgreesOn(CAP_PREFIX + family + ":", "a" + (":" + ("-" + "")));
  }

  // Of the scopes that are no exclusion, narrowing leaves only ones there were.
  lemma NothingNew(held: set<string>, steps: seq<Narrowing>, valid: string -> bool, scope: string)
    requires var left := Run(Scoped(held), steps, valid); left.Scoped? && scope in left.scopes && !IsDeny(scope)
    ensures scope in held
    decreases |steps|
  {
    if steps != [] {
      NarrowKeeps(held, steps[0], valid);
      NothingNew(Narrow(Scoped(held), steps[0], valid).scopes, steps[1..], valid, scope);
      OneStepNothingNew(held, steps[0], valid, scope);
    }
  }

  lemma OneStepNothingNew(held: set<string>, step: Narrowing, valid: string -> bool, scope: string)
    requires Narrow(Scoped(held), step, valid).Scoped? && scope in Narrow(Scoped(held), step, valid).scopes
             && !IsDeny(scope)
    ensures scope in held
  {
    if step.ByClamp? && step.carried.Scoped? && SinglePrincipal(held, valid).Some? {
      SingleHeld(held, valid);
      assert PRINCIPAL_SCOPE_PREFIX + SinglePrincipal(held, valid).value in Principals(held, valid);
    }
  }

  // Fewer allows and more exclusions reach no more.
  lemma FewerReach(left: set<string>, held: set<string>, prefix: string, covers: (string, string) -> bool,
                   target: string)
    requires Agrees(prefix) && ReachesTarget(left, prefix, covers, target)
    requires forall scope | scope in left && !IsDeny(scope) :: scope in held
    requires Exclusions(held) <= left
    ensures ReachesTarget(held, prefix, covers, target)
  {
    var rule :| AllowedBy(left, prefix, covers, target, rule)
                && forall other :: ExcludedBy(left, prefix, covers, target, other) ==> |other| < |rule|;
    forall other | ExcludedBy(held, prefix, covers, target, other) ensures |other| < |rule| {
      assert prefix + ("-" + other) == prefix + "-" + other && Dashed("-" + other);
      assert AgreesOn(prefix, "-" + other);
      assert prefix + "-" + other in Exclusions(held);
      assert ExcludedBy(left, prefix, covers, target, other);
    }
    assert AgreesOn(prefix, rule);
    assert AllowedBy(held, prefix, covers, target, rule);
  }

  // Under a grammar that agrees on what excludes, whatever its rules cover, a narrowed capability
  // reaches no target the original could not.
  lemma NarrowedReachesNothingNew(held: set<string>, steps: seq<Narrowing>, valid: string -> bool, prefix: string,
                                  covers: (string, string) -> bool, target: string)
    requires Agrees(prefix)
    ensures var left := Run(Scoped(held), steps, valid);
            && left.Scoped?
            && (ReachesTarget(left.scopes, prefix, covers, target) ==> ReachesTarget(held, prefix, covers, target))
  {
    ChainNarrows(held, steps, valid);
    var left := Run(Scoped(held), steps, valid).scopes;
    if ReachesTarget(left, prefix, covers, target) {
      forall scope | scope in left && !IsDeny(scope) ensures scope in held {
        NothingNew(held, steps, valid, scope);
      }
      FewerReach(left, held, prefix, covers, target);
    }
  }

  // Without that agreement it can: an attenuation adds the scope as an exclusion, and the grammar
  // reads it as an allow.
  lemma DisagreementReaches(family: string, word: string, rule: string, covers: (string, string) -> bool,
                            target: string, valid: string -> bool)
    requires IsWord(family) && IsWord(word) && covers(word + (":" + ("-" + rule)), target)
    ensures var prefix := CAP_PREFIX + family + ":";
            var left := Attenuate(Scoped({}), {prefix + (word + (":" + ("-" + rule)))}, valid);
            && left.Scoped? && ReachesTarget(left.scopes, prefix, covers, target)
            && !ReachesTarget({}, prefix, covers, target)
  {
    var prefix, inner := CAP_PREFIX + family + ":", word + (":" + ("-" + rule));
    OneWordDisagrees(family, word, rule);
    NothingHeld(prefix + inner, valid);
    OneAllowReaches(prefix, inner, covers, target);
  }

  // Attenuating nothing by an exclusion leaves just that.
  lemma NothingHeld(scope: string, valid: string -> bool)
    requires IsDeny(scope)
    ensures Attenuate(Scoped({}), {scope}, valid) == Scoped({scope})
  {
    assert Exclusions({scope}) == {scope};
  }

  lemma OneAllowReaches(prefix: string, rule: string, covers: (string, string) -> bool, target: string)
    requires !Dashed(rule) && covers(rule, target)
    ensures ReachesTarget({prefix + rule}, prefix, covers, target)
  {
    forall other ensures !ExcludedBy({prefix + rule}, prefix, covers, target, other) {
      assert (prefix + "-" + other)[|prefix|..] == "-" + other;
      assert (prefix + rule)[|prefix|..] == rule;
    }
    assert AllowedBy({prefix + rule}, prefix, covers, target, rule);
  }

  ghost predicate ReachesNothingNew(held: set<string>, steps: seq<Narrowing>, valid: string -> bool, prefix: string,
                                    covers: (string, string) -> bool, target: string)
  {
    var left := Run(Scoped(held), steps, valid);
    left.Scoped? && (ReachesTarget(left.scopes, prefix, covers, target) ==> ReachesTarget(held, prefix, covers, target))
  }

  // A rule narrowing keeps and its grammar allows: asking for it is being given it.
  lemma KeptAllowReaches(prefix: string, rule: string, valid: string -> bool)
    requires IsDeny(prefix + rule) && !Dashed(rule)
    ensures !ReachesNothingNew({}, [ByAttenuate({prefix + rule})], valid, prefix, (r, t) => true, "")
  {
    var steps := [ByAttenuate({prefix + rule})];
    NothingHeld(prefix + rule, valid);
    OneAllowReaches(prefix, rule, (r, t) => true, "");
    assert Run(Narrow(Scoped({}), steps[0], valid), steps[1..], valid) == Scoped({prefix + rule});
    assert !ReachesTarget({}, prefix, (r, t) => true, "");
  }

  // A rule its grammar excludes and narrowing does not keep: not asking for it is being rid of it.
  lemma ShedExclusionReaches(prefix: string, other: string)
    requires !IsDeny(prefix + ("-" + other))
    ensures !ReachesNothingNew({prefix, prefix + ("-" + other)}, [ByAttenuate({prefix})], s => false, prefix,
                               (r, t) => true, "")
  {
    var excluded := prefix + ("-" + other);
    var held, valid := {prefix, excluded}, (s: string) => false;
    var steps := [ByAttenuate({prefix})];
    assert |excluded| > |prefix|;
    assert Principals(held, valid) == {};
    NoneHeld(held, valid);
    forall s ensures s in Attenuate(Scoped(held), {prefix}, valid).scopes <==> s == prefix {
      KeptIf(held, {prefix}, valid, s);
    }
    assert Run(Narrow(Scoped(held), steps[0], valid), steps[1..], valid) == Scoped({prefix});
    assert prefix + "" == prefix;
    OneAllowReaches(prefix, "", (r, t) => true, "");
    HeldReachesNone(prefix, other);
  }

  lemma HeldReachesNone(prefix: string, other: string)
    ensures !ReachesTarget({prefix, prefix + ("-" + other)}, prefix, (r, t) => true, "")
  {
    var held, covers := {prefix, prefix + ("-" + other)}, (r: string, t: string) => true;
    assert prefix + "-" + other == prefix + ("-" + other);
    assert ExcludedBy(held, prefix, covers, "", other);
    forall rule ensures AllowedBy(held, prefix, covers, "", rule) ==> rule == "" {
      assert (prefix + rule)[|prefix|..] == rule;
      assert (prefix + ("-" + other))[|prefix|..] == "-" + other;
    }
  }

  // Exactly the prefixes whose grammar and narrowing agree on every rule are the ones under which no
  // narrowing, of any scopes and whatever the rules cover, reaches anything new.
  lemma AgreesIff(prefix: string)
    ensures Agrees(prefix)
            <==> forall held, steps, valid, covers, target ::
                   ReachesNothingNew(held, steps, valid, prefix, covers, target)
  {
    if Agrees(prefix) {
      forall held, steps, valid, covers, target ensures ReachesNothingNew(held, steps, valid, prefix, covers, target) {
        NarrowedReachesNothingNew(held, steps, valid, prefix, covers, target);
      }
    } else {
      var rule :| !AgreesOn(prefix, rule);
      if Dashed(rule) {
        assert rule == "-" + rule[1..];
        ShedExclusionReaches(prefix, rule[1..]);
      } else {
        KeptAllowReaches(prefix, rule, s => false);
      }
    }
  }

  // ---- doors ----

  // A door's mint names exactly the principal it authenticated, and keeps every other scope.
  lemma MintNames(c: Capability, principal: string, valid: string -> bool)
    ensures WithPrincipal(c, principal, valid).Ok? <==> c.Scoped? && CheckPrincipal(principal, valid).Ok?
    ensures WithPrincipal(c, principal, valid).Ok? ==>
              var minted := WithPrincipal(c, principal, valid).value;
              && minted.Scoped? && Principal(minted, valid) == Some(principal)
              && ActsAs(minted, principal, valid)
              && forall scope | !(PRINCIPAL_SCOPE_PREFIX <= scope) :: scope in minted.scopes <==> scope in c.scopes
  {
    if WithPrincipal(c, principal, valid).Ok? {
      var minted := WithPrincipal(c, principal, valid).value.scopes;
      var scope := PRINCIPAL_SCOPE_PREFIX + principal;
      assert scope[|PRINCIPAL_SCOPE_PREFIX|..] == principal;
      assert PrincipalIn(scope, valid) == Some(principal);
      assert Principals(minted, valid) == {scope};
      SingleIs(minted, valid, scope);
    }
  }

  // A client's own capability neither sheds the name its door minted nor takes another.
  lemma DoorKeepsItsName(door: Capability, carried: seq<Capability>, valid: string -> bool)
    requires door.Scoped? && Principal(door, valid).Some?
    ensures Principal(Run(door, seq(|carried|, k requires 0 <= k < |carried| => ByClamp(carried[k])), valid), valid)
         == Principal(door, valid)
  {
    var steps := seq(|carried|, k requires 0 <= k < |carried| => ByClamp(carried[k]));
    ChainLeaves(door.scopes, steps, valid);
    assert forall step | step in steps :: step.ByClamp?;
  }

  // ---- what the code does that its documentation does not say ----

  // Clamping under root gives the carried capability back exactly when it carries at most one
  // principal.
  lemma RootClampIff(carried: Capability, valid: string -> bool)
    ensures Clamp(Root, carried, valid) == carried <==> carried.Root? || !Ambiguous(carried.scopes, valid)
  {
    if carried.Scoped? && Ambiguous(carried.scopes, valid) {
      var scope :| scope in Principals(carried.scopes, valid);
      assert scope !in AtMostOnePrincipal(carried.scopes, valid);
    }
  }

  // Clamping by root is no narrowing: several principals stay several.
  lemma RootCarriedKeepsSeveral(held: set<string>, valid: string -> bool)
    requires Ambiguous(held, valid)
    ensures Clamp(Scoped(held), Root, valid) == Scoped(held) && Principal(Scoped(held), valid).None?
  {
    assert |Principals(held, valid)| != 1;
  }

  ghost predicate Under(scopes: set<string>, prefix: string) { exists scope :: scope in scopes && prefix <= scope }

  // The family form of a declared scope is a presence test, and a chain of narrowings newly meets it
  // exactly when nothing held is under the prefix and some step asks for an exclusion that is.
  lemma PresenceGrowsIff(held: set<string>, steps: seq<Narrowing>, valid: string -> bool, prefix: string)
    ensures !Satisfies(Scoped(held), prefix + "*", valid)
            && Satisfies(Run(Scoped(held), steps, valid), prefix + "*", valid)
            <==> !Under(held, prefix) && exists scope :: IsDeny(scope) && prefix <= scope && SomeAsks(steps, scope)
  {
    ChainLeaves(held, steps, valid);
    var left, family := Run(Scoped(held), steps, valid).scopes, prefix + "*";
    assert family[|family| - 1] == '*' && family[..|family| - 1] == prefix;
    if !Under(held, prefix) {
      if scope :| scope in left && prefix <= scope {
        if !IsDeny(scope) {
          NothingNew(held, steps, valid, scope);
        }
        assert scope in Exclusions(left);
      }
      if scope :| IsDeny(scope) && prefix <= scope && SomeAsks(steps, scope) {
        assert scope in Exclusions(left);
      }
    }
  }

  // So one exclusion under the prefix newly meets it, from nothing held.
  lemma ExclusionMeets(prefix: string, scope: string, valid: string -> bool)
    requires IsDeny(scope) && prefix <= scope
    ensures !Satisfies(Scoped({}), prefix + "*", valid)
    ensures Satisfies(Run(Scoped({}), [ByAttenuate({scope})], valid), prefix + "*", valid)
  {
    var step := ByAttenuate({scope});
    assert step in [step] && Asked(step) == Some({scope});
    assert SomeAsks([step], scope);
    PresenceGrowsIff({}, [step], valid, prefix);
  }

  // As a dashed rule under any two words does.
  lemma PresenceCanGrow(family: string, qualifier: string, rule: string, valid: string -> bool)
    requires IsWord(family) && IsWord(qualifier)
    ensures var prefix := CAP_PREFIX + family + ":" + qualifier + ":";
            && !Satisfies(Scoped({}), prefix + "*", valid)
            && Satisfies(Run(Scoped({}), [ByAttenuate({prefix + ("-" + rule)})], valid), prefix + "*", valid)
  {
    var prefix := CAP_PREFIX + family + ":" + qualifier + ":";
    TwoWordsAgree(family, qualifier);
    assert AgreesOn(prefix, "-" + rule);
    ExclusionMeets(prefix, prefix + ("-" + rule), valid);
  }
}
