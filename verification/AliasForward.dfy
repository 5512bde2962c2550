// Exactly what a view forwards (crates/ikigai-core/src/alias.rs:1554-1597): one list of contributions, of
// which the first to give an argument is the one sent.

module AliasForwards {
  import opened Wrappers
  import opened Grammar
  import opened ContractIris
  import opened AliasRules
  import opened AliasViews

  // A fixed argument, or a declared input with what it may be given by default.
  datatype Contribution = Fix(fixed: Bound) | Declares(input: Input)

  function Fixing(fixed: seq<Bound>): seq<Contribution> {
    if fixed == [] then [] else [Fix(fixed[0])] + Fixing(fixed[1..])
  }

  function Declaring(inputs: seq<Input>): seq<Contribution> {
    if inputs == [] then [] else [Declares(inputs[0])] + Declaring(inputs[1..])
  }

  function Contributions(part: BoundPart): seq<Contribution> { Fixing(part.fixed) + Declaring(part.inputs) }

  function AllContributions(parts: seq<BoundPart>): seq<Contribution> {
    if parts == [] then [] else Contributions(parts[0]) + AllContributions(parts[1..])
  }

  // The argument a contribution has to give.
  function Gives(c: Contribution): Option<(string, Arg)> {
    match c
    case Fix(Bound(name, Ok(sent))) => Some((name, sent))
    case Fix(_) => None
    case Declares(input) => if input.default.Some? then Some((input.name, Inline(input.default.value))) else None
  }

  predicate GivesName(c: Contribution, name: string) { Gives(c).Some? && Gives(c).value.0 == name }

  // The first of the contributions to give an argument of that name.
  ghost predicate FirstGives(cs: seq<Contribution>, k: nat, name: string) {
    k < |cs| && GivesName(cs[k], name) && forall j | 0 <= j < k :: !GivesName(cs[j], name)
  }

  ghost predicate Given(cs: seq<Contribution>, name: string) { exists k :: 0 <= k < |cs| && GivesName(cs[k], name) }

  // What is sent: what the caller gave, and otherwise what the first contribution to give it does.
  ghost predicate Sends(args: map<string, Arg>, cs: seq<Contribution>, out: map<string, Arg>) {
    && (forall name :: name in out <==> name in args || Given(cs, name))
    && (forall name | name in args :: name in out && out[name] == args[name])
    && forall name, k: nat | name !in args && FirstGives(cs, k, name) :: SentAs(out, name, cs[k])
  }

  ghost predicate SentAs(out: map<string, Arg>, name: string, c: Contribution) {
    GivesName(c, name) && name in out && out[name] == Gives(c).value.1
  }

  // A fixed argument is taken when it could be made and nothing before gives one of its name; a declared
  // input, when what is given of it by then is held to it.
  ghost predicate Taken(args: map<string, Arg>, cs: seq<Contribution>, k: nat, out: map<string, Arg>, held: Held)
    requires k < |cs|
  {
    match cs[k]
    case Fix(fixed) => fixed.sent.Ok? && fixed.name !in args && !Given(cs[..k], fixed.name)
    case Declares(input) =>
      input.name in args || Given(cs[..k + 1], input.name) ==> input.name in out && held(input, out[input.name])
  }

  ghost predicate AllTaken(args: map<string, Arg>, cs: seq<Contribution>, out: map<string, Arg>, held: Held) {
    forall k | 0 <= k < |cs| :: Taken(args, cs, k, out, held)
  }

  // ---- one contribution after another ----

  function Merge(args: map<string, Arg>, c: Contribution, held: Held): Result<map<string, Arg>, Failure> {
    match c
    case Fix(fixed) =>
      if fixed.name in args || fixed.sent.Err? then Err(InvalidArgument(fixed.name))
      else Ok(args[fixed.name := fixed.sent.value])
    case Declares(input) =>
      var given := WithDefault(args, input);
      if input.name in given && !held(input, given[input.name]) then Err(InvalidArgument(input.name)) else Ok(given)
  }

  function MergeAll(args: map<string, Arg>, cs: seq<Contribution>, held: Held): Result<map<string, Arg>, Failure>
    decreases |cs|
  {
    if cs == [] then Ok(args)
    else
      match MergeAll(args, cs[..|cs| - 1], held)
      case Err(e) => Err(e)
      case Ok(before) => Merge(before, cs[|cs| - 1], held)
  }

  lemma {:induction false} MergeAllJoins(args: map<string, Arg>, a: seq<Contribution>, b: seq<Contribution>, held: Held)
    ensures MergeAll(args, a + b, held) == match MergeAll(args, a, held)
                                           case Err(e) => Err(e)
                                           case Ok(between) => MergeAll(between, b, held)
    decreases |b|
  {
    if b == [] {
      assert a + b == a;
    } else {
      var all := a + b;
      assert all[..|all| - 1] == a + b[..|b| - 1] && all[|all| - 1] == b[|b| - 1];
      MergeAllJoins(args, a, b[..|b| - 1], held);
    }
  }

  lemma MergeAllOne(args: map<string, Arg>, c: Contribution, held: Held)
    ensures MergeAll(args, [c], held) == Merge(args, c, held)
  {
    assert [c][..0] == [];
    assert MergeAll(args, [c][..0], held) == Ok(args);
  }

  lemma {:induction false} FixedAreMerged(args: map<string, Arg>, fixed: seq<Bound>, held: Held)
    ensures MergeFixed(args, fixed) == MergeAll(args, Fixing(fixed), held)
    decreases |fixed|
  {
    if fixed != [] {
      MergeAllJoins(args, [Fix(fixed[0])], Fixing(fixed[1..]), held);
      MergeAllOne(args, Fix(fixed[0]), held);
      if Merge(args, Fix(fixed[0]), held).Ok? {
        FixedAreMerged(Merge(args, Fix(fixed[0]), held).value, fixed[1..], held);
      }
    }
  }

  lemma {:induction false} InputsAreMerged(args: map<string, Arg>, inputs: seq<Input>, held: Held)
    ensures MergeInputs(args, inputs, held) == MergeAll(args, Declaring(inputs), held)
    decreases |inputs|
  {
    if inputs != [] {
      MergeAllJoins(args, [Declares(inputs[0])], Declaring(inputs[1..]), held);
      MergeAllOne(args, Declares(inputs[0]), held);
      if Merge(args, Declares(inputs[0]), held).Ok? {
        InputsAreMerged(Merge(args, Declares(inputs[0]), held).value, inputs[1..], held);
      }
    }
  }

  predicate VerbFits(verb: Verb, part: BoundPart) { part.verb.Some? ==> verb == part.verb.value || verb == Exists }

  lemma PartIsMerged(verb: Verb, args: map<string, Arg>, part: BoundPart, held: Held)
    ensures VerbFits(verb, part) ==> MergePart(verb, args, part, held) == MergeAll(args, Contributions(part), held)
    ensures !VerbFits(verb, part) ==> MergePart(verb, args, part, held) == Err(Unsupported(verb, part.name))
  {
    FixedAreMerged(args, part.fixed, held);
    MergeAllJoins(args, Fixing(part.fixed), Declaring(part.inputs), held);
    if MergeFixed(args, part.fixed).Ok? {
      InputsAreMerged(MergeFixed(args, part.fixed).value, part.inputs, held);
    }
  }

  predicate AllFit(verb: Verb, parts: seq<BoundPart>) { forall p | 0 <= p < |parts| :: VerbFits(verb, parts[p]) }

  lemma VerbsFit(verb: Verb, parts: seq<BoundPart>)
    requires parts != []
    ensures AllFit(verb, parts) <==> VerbFits(verb, parts[0]) && AllFit(verb, parts[1..])
  {
    var rest := parts[1..];
    assert forall p | 0 <= p < |rest| :: rest[p] == parts[p + 1];
    assert forall p | 0 < p < |parts| :: parts[p] == rest[p - 1];
  }

  lemma {:induction false} PartsAreMerged(verb: Verb, args: map<string, Arg>, parts: seq<BoundPart>, held: Held)
    ensures MergeParts(verb, args, parts, held).Ok?
            <==> AllFit(verb, parts) && MergeAll(args, AllContributions(parts), held).Ok?
    ensures MergeParts(verb, args, parts, held).Ok? ==>
              MergeParts(verb, args, parts, held) == MergeAll(args, AllContributions(parts), held)
    decreases |parts|
  {
    if parts != [] {
      PartIsMerged(verb, args, parts[0], held);
      MergeAllJoins(args, Contributions(parts[0]), AllContributions(parts[1..]), held);
      VerbsFit(verb, parts);
      if MergePart(verb, args, parts[0], held).Ok? {
        PartsAreMerged(verb, MergePart(verb, args, parts[0], held).value, parts[1..], held);
      }
    }
  }

  // ---- what merging one by one comes to ----

  lemma GivenMore(cs: seq<Contribution>, c: Contribution, name: string)
    ensures Given(cs + [c], name) <==> Given(cs, name) || GivesName(c, name)
  {
    var all := cs + [c];
    if Given(cs, name) {
      var k :| 0 <= k < |cs| && GivesName(cs[k], name);
      assert all[k] == cs[k];
    }
    if GivesName(c, name) {
      assert all[|cs|] == c;
    }
  }

  lemma FirstGivesMore(cs: seq<Contribution>, c: Contribution, k: nat, name: string)
    ensures k < |cs| ==> (FirstGives(cs + [c], k, name) <==> FirstGives(cs, k, name))
    ensures k == |cs| ==> (FirstGives(cs + [c], k, name) <==> GivesName(c, name) && !Given(cs, name))
    ensures k > |cs| ==> !FirstGives(cs + [c], k, name)
  {
    var all := cs + [c];
    assert forall j | 0 <= j < |cs| :: all[j] == cs[j];
    assert all[|cs|] == c;
  }

  // The arguments with the one a contribution gives, unless there is one of its name.
  function WithGiven(args: map<string, Arg>, c: Contribution): map<string, Arg> {
    match Gives(c)
    case None => args
    case Some((name, arg)) => if name in args then args else args[name := arg]
  }

  // One more contribution sends what was sent, and its own when nothing before gave one.
  lemma SendsMore(args: map<string, Arg>, cs: seq<Contribution>, c: Contribution, out: map<string, Arg>)
    requires Sends(args, cs, out)
    ensures Sends(args, cs + [c], WithGiven(out, c))
  {
    var more := WithGiven(out, c);
    forall name ensures name in more <==> name in args || Given(cs + [c], name) {
      GivenMore(cs, c, name);
    }
    forall name, k: nat | name !in args && FirstGives(cs + [c], k, name) ensures SentAs(more, name, (cs + [c])[k]) {
      FirstGivesMore(cs, c, k, name);
      if k < |cs| {
        assert (cs + [c])[k] == cs[k] && SentAs(out, name, cs[k]);
      } else {
        assert name !in out;
      }
    }
  }

  lemma {:induction false} FirstOf(cs: seq<Contribution>, name: string) returns (k: nat)
    requires Given(cs, name)
    ensures FirstGives(cs, k, name)
  {
    if Given(cs[..|cs| - 1], name) {
      var front := cs[..|cs| - 1];
      k := FirstOf(front, name);
      assert forall j | 0 <= j < |front| :: cs[j] == front[j];
    } else {
      k := |cs| - 1;
      var front := cs[..k];
      assert forall i | 0 <= i < k :: front[i] == cs[i];
    }
  }

  // There is one such set of arguments.
  lemma SendsOnce(args: map<string, Arg>, cs: seq<Contribution>, a: map<string, Arg>, b: map<string, Arg>)
    requires Sends(args, cs, a) && Sends(args, cs, b)
    ensures a == b
  {
    forall name | name in a ensures name in b && a[name] == b[name] {
      if name !in args {
        var k := FirstOf(cs, name);
        assert SentAs(a, name, cs[k]) && SentAs(b, name, cs[k]);
      }
    }
    assert a.Keys == b.Keys;
  }

  lemma NothingSent(args: map<string, Arg>, out: map<string, Arg>)
    ensures Sends(args, [], out) <==> out == args
  {
    if Sends(args, [], out) {
      assert out.Keys == args.Keys;
    }
  }

  // Merging one by one succeeds exactly when every contribution is taken, and sends exactly that.
  lemma {:induction false} MergeAllIff(args: map<string, Arg>, cs: seq<Contribution>, held: Held, out: map<string, Arg>)
    ensures MergeAll(args, cs, held) == Ok(out) <==> Sends(args, cs, out) && AllTaken(args, cs, out, held)
    decreases |cs|
  {
    if cs == [] {
      NothingSent(args, out);
    } else {
      var front, c := cs[..|cs| - 1], cs[|cs| - 1];
      assert cs == front + [c];
      if MergeAll(args, front, held).Ok? {
        var before := MergeAll(args, front, held).value;
        MergeAllIff(args, front, held, before);
        SendsMore(args, front, c, before);
        LastTaken(args, front, c, before, held, out);
      } else if Sends(args, cs, out) && AllTaken(args, cs, out, held) {
        var before := Restrict(args, front, c, out);
        TakenBefore(args, front, c, before, out, held);
        MergeAllIff(args, front, held, before);
      }
    }
  }

  // The arguments sent before the last contribution.
  lemma Restrict(args: map<string, Arg>, cs: seq<Contribution>, c: Contribution, out: map<string, Arg>)
    returns (before: map<string, Arg>)
    requires Sends(args, cs + [c], out)
    ensures Sends(args, cs, before) && forall name | name in before :: name in out && out[name] == before[name]
  {
    before := map name | name in out && (name in args || Given(cs, name)) :: out[name];
    forall name ensures name in before <==> name in args || Given(cs, name) {
      GivenMore(cs, c, name);
    }
    forall name, k: nat | name !in args && FirstGives(cs, k, name) ensures SentAs(before, name, cs[k]) {
      FirstGivesMore(cs, c, k, name);
      assert (cs + [c])[k] == cs[k] && SentAs(out, name, cs[k]);
    }
  }

  // What was taken of the first ones is taken of them alone.
  lemma TakenBefore(args: map<string, Arg>, cs: seq<Contribution>, c: Contribution, before: map<string, Arg>,
                    out: map<string, Arg>, held: Held)
    requires Sends(args, cs, before) && forall name | name in before :: name in out && out[name] == before[name]
    ensures (forall k | 0 <= k < |cs| :: Taken(args, cs + [c], k, out, held)) <==> AllTaken(args, cs, before, held)
  {
    var all := cs + [c];
    forall k | 0 <= k < |cs| ensures Taken(args, all, k, out, held) <==> Taken(args, cs, k, before, held) {
      assert all[k] == cs[k] && all[..k] == cs[..k] && all[..k + 1] == cs[..k + 1];
      if cs[k].Declares? {
        UptoGiven(cs, k, cs[k].input.name);
      }
    }
  }

  lemma UptoGiven(cs: seq<Contribution>, k: nat, name: string)
    requires k < |cs|
    ensures Given(cs[..k + 1], name) ==> Given(cs, name)
  {
    if Given(cs[..k + 1], name) {
      var j :| 0 <= j < |cs[..k + 1]| && GivesName(cs[..k + 1][j], name);
      assert cs[j] == cs[..k + 1][j];
    }
  }

  // The last contribution is merged exactly when it is taken.
  lemma LastTaken(args: map<string, Arg>, cs: seq<Contribution>, c: Contribution, before: map<string, Arg>, held: Held,
                  out: map<string, Arg>)
    requires Sends(args, cs, before) && AllTaken(args, cs, before, held)
    requires Sends(args, cs + [c], WithGiven(before, c))
    ensures Merge(before, c, held) == Ok(out) <==> Sends(args, cs + [c], out) && AllTaken(args, cs + [c], out, held)
  {
    var more := WithGiven(before, c);
    if Sends(args, cs + [c], out) {
      SendsOnce(args, cs + [c], out, more);
    }
    TakenBefore(args, cs, c, before, more, held);
    AllTakenSplits(args, cs, c, more, held);
    LastIsTaken(args, cs, c, before, more, held);
  }

  lemma AllTakenSplits(args: map<string, Arg>, cs: seq<Contribution>, c: Contribution, out: map<string, Arg>,
                       held: Held)
    ensures AllTaken(args, cs + [c], out, held)
            <==> (forall k | 0 <= k < |cs| :: Taken(args, cs + [c], k, out, held))
                 && Taken(args, cs + [c], |cs|, out, held)
  {
  }

  lemma LastIsTaken(args: map<string, Arg>, cs: seq<Contribution>, c: Contribution, before: map<string, Arg>,
                    more: map<string, Arg>, held: Held)
    requires Sends(args, cs, before)
    requires more == WithGiven(before, c)
    ensures Merge(before, c, held).Ok? <==> Taken(args, cs + [c], |cs|, more, held)
    ensures Merge(before, c, held).Ok? ==> Merge(before, c, held) == Ok(more)
  {
    var all := cs + [c];
    assert all[|cs|] == c && all[..|cs|] == cs && all[..|cs| + 1] == all;
    match c
    case Fix(fixed) =>
    case Declares(input) => GivenMore(cs, c, input.name);
  }

  // ---- the law ----

  // A view forwards `out` exactly when the caller's verb is every bound one or Exists, every fixed
  // argument could be made and is given by nobody before, every declared input that has a value by then
  // is held to it, and `out` is what the caller gave with what the first contribution to give each other
  // argument does.
  lemma ForwardsIff(verb: Verb, args: map<string, Arg>, parts: seq<BoundPart>, held: Held, out: map<string, Arg>)
    ensures MergeParts(verb, args, parts, held) == Ok(out)
            <==> AllFit(verb, parts)
                 && Sends(args, AllContributions(parts), out) && AllTaken(args, AllContributions(parts), out, held)
  {
    PartsAreMerged(verb, args, parts, held);
    MergeAllIff(args, AllContributions(parts), held, out);
  }

  // ---- what each fixed argument is sent as ----

  // A written value as it stands, a reference as a reference, one with variables filled in, and a capture
  // as the text captured.
  lemma FixesAreSent(rule: Rule, name: string, captures: Bindings, fill: Fill, part: BoundPart, k: nat)
    requires Settles(rule, name, captures, fill, part) && k < |rule.request.fixes|
    ensures |part.fixed| == |rule.request.fixes| && part.fixed[k].name == rule.request.fixes[k].name
    ensures match rule.request.fixes[k].value
            case Value(text) => part.fixed[k].sent == Ok(Inline(text))
            case Reference(iri) => part.fixed[k].sent == Ok(ByReference(iri))
            case ReferenceTemplate(template) =>
              (match fill(template, captures)
               case Ok(iri) => part.fixed[k].sent == Ok(ByReference(iri))
               case Err(e) => part.fixed[k].sent == Err(e))
            case Capture(v) => v in captures && part.fixed[k].sent == Ok(Inline(captures[v]))
  {
  }

  // A rule is a named request exactly when it was stated as one.
  lemma NamedIffStated(rule: Stated, valid: string -> bool)
    requires Acceptable(rule, valid)
    ensures Built(rule).IsNamedRequest() <==> rule.Named()
  {
  }
}
