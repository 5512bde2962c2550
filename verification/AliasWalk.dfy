// What the alias walk answers (crates/ikigai-core/src/alias.rs:862-920), over every table and
// every name.

module AliasWalk {
  import opened Wrappers
  import opened Sorting
  import Utf8
  import opened Grammar
  import opened ContractIris
  import opened AliasRules
  import opened AliasOrder
  import opened AliasTables

  // The name `n` rewrites from `name`, if every one of them has a rule.
  function After(rules: seq<Rule>, valid: string -> bool, name: string, n: nat): Option<string>
    decreases n
  {
    if n == 0 then Some(name)
    else
      match Step(rules, valid, name)
      case None => None
      case Some((_, next)) => After(rules, valid, next, n - 1)
  }

  // The rules those rewrites take.
  function Path(rules: seq<Rule>, valid: string -> bool, name: string, n: nat): seq<nat>
    decreases n
  {
    if n == 0 then []
    else
      match Step(rules, valid, name)
      case None => []
      case Some((index, next)) => [index] + Path(rules, valid, next, n - 1)
  }

  // After `n` rewrites through names that are all IRIs, `name` is `c`, and no rule matches that.
  ghost predicate Ends(rules: seq<Rule>, valid: string -> bool, name: string, n: nat, c: string) {
    && After(rules, valid, name, n) == Some(c)
    && Step(rules, valid, c).None?
    && forall k | 1 <= k <= n :: Reaches(rules, valid, name, k)
  }

  // The `k`th name exists and is an IRI.
  ghost predicate Reaches(rules: seq<Rule>, valid: string -> bool, name: string, k: nat) {
    var there := After(rules, valid, name, k);
    there.Some? && valid(there.value)
  }

  lemma {:induction false} AfterAdds(rules: seq<Rule>, valid: string -> bool, name: string, a: nat, b: nat)
    requires After(rules, valid, name, a).Some?
    ensures After(rules, valid, name, a + b) == After(rules, valid, After(rules, valid, name, a).value, b)
    decreases a
  {
    if a > 0 {
      AfterAdds(rules, valid, Step(rules, valid, name).value.1, a - 1, b);
    }
  }

  lemma {:induction false} AfterShorter(rules: seq<Rule>, valid: string -> bool, name: string, k: nat, n: nat)
    requires k <= n && After(rules, valid, name, n).Some?
    ensures After(rules, valid, name, k).Some?
    decreases k
  {
    if k > 0 {
      AfterShorter(rules, valid, Step(rules, valid, name).value.1, k - 1, n - 1);
    }
  }

  // A name met again comes round for ever.
  lemma {:induction false} RepeatNeverEnds(rules: seq<Rule>, valid: string -> bool, name: string, i: nat, j: nat,
                                           n: nat)
    requires i < j && After(rules, valid, name, j).Some? && After(rules, valid, name, i) == After(rules, valid, name, j)
    ensures After(rules, valid, name, n).Some?
    decreases n
  {
    if n <= j {
      AfterShorter(rules, valid, name, n, j);
    } else {
      RepeatNeverEnds(rules, valid, name, i, j, n - (j - i));
      AfterAdds(rules, valid, name, i, n - j);
      AfterAdds(rules, valid, name, j, n - j);
    }
  }

  // So a chain that ends meets no name twice.
  lemma EndsMeetsOnce(rules: seq<Rule>, valid: string -> bool, name: string, n: nat, c: string, i: nat, j: nat)
    requires Ends(rules, valid, name, n, c) && i < j <= n
    ensures After(rules, valid, name, i) != After(rules, valid, name, j)
  {
    AfterAdds(rules, valid, name, n, 1);
    AfterShorter(rules, valid, name, j, n);
    if After(rules, valid, name, i) == After(rules, valid, name, j) {
      RepeatNeverEnds(rules, valid, name, i, j, n + 1);
    }
  }

  lemma EndsFromNext(rules: seq<Rule>, valid: string -> bool, name: string, n: nat, c: string)
    requires Step(rules, valid, name).Some?
    ensures var next := Step(rules, valid, name).value.1;
            valid(next) && Ends(rules, valid, next, n, c) <==> Ends(rules, valid, name, n + 1, c)
  {
    var next := Step(rules, valid, name).value.1;
    if Ends(rules, valid, name, n + 1, c) {
      assert Reaches(rules, valid, name, 1) && After(rules, valid, name, 1) == After(rules, valid, next, 0);
      forall k | 1 <= k <= n ensures Reaches(rules, valid, next, k) {
        assert Reaches(rules, valid, name, k + 1);
      }
    }
    if valid(next) && Ends(rules, valid, next, n, c) {
      forall k | 1 <= k <= n + 1 ensures Reaches(rules, valid, name, k) {
        assert k > 1 ==> Reaches(rules, valid, next, k - 1);
      }
    }
  }

  // An accepted walk ended, within the hops.
  lemma {:induction false} AcceptedEnds(rules: seq<Rule>, valid: string -> bool, current: string, trail: seq<string>,
                                        applied: seq<nat>, hops: nat) returns (n: nat)
    requires WalkFrom(rules, valid, current, trail, applied, hops).Aliased?
    ensures var walked := WalkFrom(rules, valid, current, trail, applied, hops);
            && n < hops && Ends(rules, valid, current, n, walked.canonical)
            && walked.applied == applied + Path(rules, valid, current, n)
            && (applied == [] ==> n > 0)
    decreases hops
  {
    match Step(rules, valid, current)
    case None =>
      n := 0;
      assert applied + [] == applied;
    case Some((index, next)) =>
      var m := AcceptedEnds(rules, valid, next, trail + [next], applied + [index], hops - 1);
      n := m + 1;
      EndsFromNext(rules, valid, current, m, WalkFrom(rules, valid, current, trail, applied, hops).canonical);
      assert applied + [index] + Path(rules, valid, next, m) == applied + ([index] + Path(rules, valid, next, m));
  }

  // The `k`th name is none of the trail.
  ghost predicate Leaves(rules: seq<Rule>, valid: string -> bool, name: string, k: nat, trail: seq<string>) {
    var there := After(rules, valid, name, k);
    there.Some? ==> there.value !in trail
  }

  // A chain that ends within the hops, meeting nothing of the trail, is accepted.
  lemma {:induction false} EndedAccepted(rules: seq<Rule>, valid: string -> bool, current: string, trail: seq<string>,
                                         applied: seq<nat>, hops: nat, n: nat, c: string)
    requires Ends(rules, valid, current, n, c) && n < hops && (applied == [] ==> n > 0)
    requires forall k | 1 <= k <= n :: Leaves(rules, valid, current, k, trail)
    ensures WalkFrom(rules, valid, current, trail, applied, hops)
         == Aliased(c, applied + Path(rules, valid, current, n))
    decreases hops
  {
    if n == 0 {
      assert applied + [] == applied;
    } else {
      assert Reaches(rules, valid, current, 1);
      assert After(rules, valid, current, 1).Some?;
      var (index, next) := Step(rules, valid, current).value;
      assert After(rules, valid, current, 1) == After(rules, valid, next, 0) == Some(next);
      EndsFromNext(rules, valid, current, n - 1, c);
      assert Leaves(rules, valid, current, 1, trail);
      forall k | 1 <= k <= n - 1 ensures Leaves(rules, valid, next, k, trail + [next]) {
        assert After(rules, valid, next, k) == After(rules, valid, current, k + 1);
        assert Leaves(rules, valid, current, k + 1, trail);
        EndsMeetsOnce(rules, valid, current, n, c, 1, k + 1);
      }
      EndedAccepted(rules, valid, next, trail + [next], applied + [index], hops - 1, n - 1, c);
      assert applied + [index] + Path(rules, valid, next, n - 1)
             == applied + ([index] + Path(rules, valid, next, n - 1));
    }
  }

  // The walk answers a canonical name exactly when rewriting ends there, after at least one rewrite
  // and strictly fewer than the hop budget, every name on the way an IRI. It is told by the table
  // and the name alone: a repeated name needs no clause of its own.
  lemma AliasedIffEnds(rules: seq<Rule>, maxHops: nat, valid: string -> bool, target: string, c: string,
                       applied: seq<nat>)
    requires !Reserved(target)
    ensures WalkTo(rules, maxHops, valid, target) == Aliased(c, applied)
            <==> exists n :: && 1 <= n < maxHops
                             && Ends(rules, valid, target, n, c)
                             && applied == Path(rules, valid, target, n)
  {
    if WalkTo(rules, maxHops, valid, target) == Aliased(c, applied) {
      var n := AcceptedEnds(rules, valid, target, [target], [], maxHops);
      assert [] + Path(rules, valid, target, n) == Path(rules, valid, target, n);
    }
    if n :| 1 <= n < maxHops && Ends(rules, valid, target, n, c) && applied == Path(rules, valid, target, n) {
      forall k | 1 <= k <= n ensures Leaves(rules, valid, target, k, [target]) {
        assert Reaches(rules, valid, target, k);
        EndsMeetsOnce(rules, valid, target, n, c, 0, k);
      }
      EndedAccepted(rules, valid, target, [target], [], maxHops, n, c);
      assert [] + Path(rules, valid, target, n) == Path(rules, valid, target, n);
    }
  }

  lemma {:induction false} NeverDirectOnceApplied(rules: seq<Rule>, valid: string -> bool, current: string,
                                                  trail: seq<string>, applied: seq<nat>, hops: nat)
    requires applied != []
    ensures WalkFrom(rules, valid, current, trail, applied, hops) != Direct
    decreases hops
  {
    if hops > 0 && Step(rules, valid, current).Some? {
      var (index, next) := Step(rules, valid, current).value;
      NeverDirectOnceApplied(rules, valid, next, trail + [next], applied + [index], hops - 1);
    }
  }

  // A name is left as it is exactly when it is reserved or no rule matches it.
  lemma DirectIffUnmatched(rules: seq<Rule>, maxHops: nat, valid: string -> bool, target: string)
    requires maxHops > 0
    ensures WalkTo(rules, maxHops, valid, target) == Direct
            <==> Reserved(target) || forall rule | rule in rules :: Apply(rule, valid, target).None?
  {
    StepFromIsFirst(rules, valid, target, 0);
    if Step(rules, valid, target).Some? {
      var (index, next) := Step(rules, valid, target).value;
      assert rules[index] in rules;
      NeverDirectOnceApplied(rules, valid, next, [target] + [next], [] + [index], maxHops - 1);
    }
  }

  // Every name on an accepted chain is sent to the same place, and what is sent there stays.
  lemma ChainAgrees(rules: seq<Rule>, maxHops: nat, valid: string -> bool, target: string, c: string, n: nat, k: nat)
    requires !Reserved(target) && 1 <= n < maxHops && Ends(rules, valid, target, n, c) && k <= n
    ensures match After(rules, valid, target, k)
            case None => false
            case Some(there) =>
              Reserved(there) || WalkTo(rules, maxHops, valid, there)
                              == if k == n then Direct else Aliased(c, Path(rules, valid, there, n - k))
  {
    AfterShorter(rules, valid, target, k, n);
    var there := After(rules, valid, target, k).value;
    forall i: nat | i <= n - k ensures After(rules, valid, there, i) == After(rules, valid, target, k + i) {
      AfterAdds(rules, valid, target, k, i);
    }
    forall i | 1 <= i <= n - k ensures Reaches(rules, valid, there, i) {
      assert Reaches(rules, valid, target, k + i);
    }
    assert Ends(rules, valid, there, n - k, c);
    if !Reserved(there) {
      if k == n {
        StepFromIsFirst(rules, valid, there, 0);
        DirectIffUnmatched(rules, maxHops, valid, there);
      } else {
        AliasedIffEnds(rules, maxHops, valid, there, c, Path(rules, valid, there, n - k));
      }
    }
  }

  // A canonical name canonicalizes to itself, and the names on the way to it are all different.
  lemma CanonicalIsFinal(rules: seq<Rule>, maxHops: nat, valid: string -> bool, target: string)
    requires WalkTo(rules, maxHops, valid, target).Aliased?
    ensures WalkTo(rules, maxHops, valid, WalkTo(rules, maxHops, valid, target).canonical) == Direct
    ensures var applied := WalkTo(rules, maxHops, valid, target).applied;
            forall i, j | 0 <= i < j <= |applied| ::
              After(rules, valid, target, i).Some? && After(rules, valid, target, i) != After(rules, valid, target, j)
  {
    var walked := WalkTo(rules, maxHops, valid, target);
    AliasedIffEnds(rules, maxHops, valid, target, walked.canonical, walked.applied);
    var n :| 1 <= n < maxHops && Ends(rules, valid, target, n, walked.canonical)
             && walked.applied == Path(rules, valid, target, n);
    ChainAgrees(rules, maxHops, valid, target, walked.canonical, n, n);
    PathLength(rules, valid, target, n);
    forall i, j | 0 <= i < j <= n
      ensures After(rules, valid, target, i).Some? && After(rules, valid, target, i) != After(rules, valid, target, j)
    {
      AfterShorter(rules, valid, target, i, n);
      EndsMeetsOnce(rules, valid, target, n, walked.canonical, i, j);
    }
  }

  lemma {:induction false} PathLength(rules: seq<Rule>, valid: string -> bool, name: string, n: nat)
    requires After(rules, valid, name, n).Some?
    ensures |Path(rules, valid, name, n)| == n
    decreases n
  {
    if n > 0 {
      PathLength(rules, valid, Step(rules, valid, name).value.1, n - 1);
    }
  }

  // ---- refusals ----

  // What a refusal says is so: the chain leaves the IRIs, comes round for ever, or has not ended
  // within the hops.
  ghost predicate Deserved(rules: seq<Rule>, valid: string -> bool, current: string, trail: seq<string>, hops: nat,
                           reason: Reason)
  {
    match reason
    case InvalidName(name) =>
      !valid(name) && exists k: nat :: 1 <= k <= hops && After(rules, valid, current, k) == Some(name)
    case Cycle =>
      exists k: nat :: 1 <= k <= hops && After(rules, valid, current, k).Some?
                       && (After(rules, valid, current, k).value in trail
                           || exists i: nat ::
                                i < k && After(rules, valid, current, i) == After(rules, valid, current, k))
    case TooLong => After(rules, valid, current, hops).Some?
  }

  lemma {:induction false} RefusedDeserves(rules: seq<Rule>, valid: string -> bool, current: string, trail: seq<string>,
                                           applied: seq<nat>, hops: nat)
    requires WalkFrom(rules, valid, current, trail, applied, hops).Refused?
    ensures Deserved(rules, valid, current, trail, hops, WalkFrom(rules, valid, current, trail, applied, hops).reason)
    decreases hops
  {
    if hops > 0 {
      var (index, next) := Step(rules, valid, current).value;
      assert After(rules, valid, current, 1) == After(rules, valid, next, 0) == Some(next);
      if valid(next) && next !in trail {
        RefusedDeserves(rules, valid, next, trail + [next], applied + [index], hops - 1);
        var reason := WalkFrom(rules, valid, current, trail, applied, hops).reason;
        if reason.InvalidName? {
          var k: nat :| 1 <= k <= hops - 1 && After(rules, valid, next, k) == Some(reason.name);
          assert After(rules, valid, current, k + 1) == Some(reason.name);
        }
        if reason.Cycle? {
          LaterCycle(rules, valid, current, trail, hops, next);
        }
      }
    }
  }

  lemma LaterCycle(rules: seq<Rule>, valid: string -> bool, current: string, trail: seq<string>, hops: nat,
                   next: string)
    requires hops > 0 && Step(rules, valid, current).Some? && Step(rules, valid, current).value.1 == next
    requires Deserved(rules, valid, next, trail + [next], hops - 1, Cycle)
    ensures Deserved(rules, valid, current, trail, hops, Cycle)
  {
    var k: nat :| 1 <= k <= hops - 1 && After(rules, valid, next, k).Some?
                       && (After(rules, valid, next, k).value in trail + [next]
                           || exists i: nat :: i < k && After(rules, valid, next, i) == After(rules, valid, next, k));
    var there := After(rules, valid, next, k);
    assert After(rules, valid, current, k + 1) == there;
    assert After(rules, valid, current, 1) == After(rules, valid, next, 0) == Some(next);
    if there.value !in trail + [next] {
      var i: nat :| i < k && After(rules, valid, next, i) == there;
      assert After(rules, valid, current, i + 1) == there;
    }
  }

  // A cycle is never refused of a chain that would have ended: it goes on for ever.
  lemma RefusedCycleNeverEnds(rules: seq<Rule>, maxHops: nat, valid: string -> bool, target: string, n: nat)
    requires WalkTo(rules, maxHops, valid, target).Refused? && WalkTo(rules, maxHops, valid, target).reason == Cycle
    ensures After(rules, valid, target, n).Some?
  {
    RefusedDeserves(rules, valid, target, [target], [], maxHops);
    var k: nat :| 1 <= k <= maxHops && After(rules, valid, target, k).Some?
                       && (After(rules, valid, target, k).value in [target]
                           || exists i: nat ::
                                i < k && After(rules, valid, target, i) == After(rules, valid, target, k));
    assert After(rules, valid, target, 0) == Some(target);
    var i: nat :| i < k && After(rules, valid, target, i) == After(rules, valid, target, k);
    RepeatNeverEnds(rules, valid, target, i, k, n);
  }

  // ---- what the code does that its documentation does not say ----

  // Only the name asked for is held against the reserved namespace: a reserved name met on the way
  // is rewritten like any other, although asked for itself it is left alone.
  lemma ReservedNameIsRewrittenOnTheWay(rules: seq<Rule>, maxHops: nat, valid: string -> bool, name: string, i: nat,
                                        mid: string, j: nat, c: string)
    requires Step(rules, valid, name) == Some((i, mid)) && Step(rules, valid, mid) == Some((j, c))
    requires Step(rules, valid, c).None? && valid(mid) && valid(c) && 2 < maxHops
    requires !Reserved(name) && Reserved(mid)
    ensures WalkTo(rules, maxHops, valid, name) == Aliased(c, [i, j])
    ensures WalkTo(rules, maxHops, valid, mid) == Direct
  {
    ChainOfTwo(rules, valid, name, i, mid, j, c);
    AliasedIffEnds(rules, maxHops, valid, name, c, [i, j]);
  }

  // And there are such tables: two exact rules, the second's target the first's name.
  lemma ReservedNameTable(valid: string -> bool, maxHops: nat, name: string, kernel: string, c: string)
    requires Reserved(kernel) && !Reserved(name) && |Utf8.Encode(name)| < |Utf8.Encode(kernel)|
    requires c != name && c != kernel && valid(kernel) && valid(c) && 2 < maxHops
    ensures var rules := [Rule(Exact, kernel, c, Child, PLAIN), Rule(Exact, name, kernel, Child, PLAIN)];
            && InOrder(rules)
            && WalkTo(rules, maxHops, valid, name) == Aliased(c, [1, 0])
            && WalkTo(rules, maxHops, valid, kernel) == Direct
  {
    var rules := [Rule(Exact, kernel, c, Child, PLAIN), Rule(Exact, name, kernel, Child, PLAIN)];
    OutranksIsOrder(rules[1], rules[0]);
    assert StepFrom(rules, valid, name, 1) == Some((1, kernel));
    assert StepFrom(rules, valid, c, 2).None? && StepFrom(rules, valid, c, 1).None?;
    ReservedNameIsRewrittenOnTheWay(rules, maxHops, valid, name, 1, kernel, 0, c);
  }

  lemma ChainOfTwo(rules: seq<Rule>, valid: string -> bool, name: string, i: nat, mid: string, j: nat, c: string)
    requires Step(rules, valid, name) == Some((i, mid)) && Step(rules, valid, mid) == Some((j, c))
    requires Step(rules, valid, c).None? && valid(mid) && valid(c)
    ensures Ends(rules, valid, name, 2, c) && Path(rules, valid, name, 2) == [i, j]
  {
    assert After(rules, valid, mid, 1) == After(rules, valid, c, 0) == Some(c);
    assert After(rules, valid, name, 1) == After(rules, valid, mid, 0) == Some(mid);
    assert After(rules, valid, name, 2) == Some(c);
    assert Path(rules, valid, mid, 1) == [j] + Path(rules, valid, c, 0) == [j];
    assert Path(rules, valid, name, 2) == [i] + [j];
  }

  // The accepted walk from `name` rewrites a reserved name, the `k`th of its chain.
  ghost predicate PassesReserved(rules: seq<Rule>, maxHops: nat, valid: string -> bool, name: string, k: nat) {
    && !Reserved(name)
    && WalkTo(rules, maxHops, valid, name).Aliased?
    && 1 <= k < |WalkTo(rules, maxHops, valid, name).applied|
    && match After(rules, valid, name, k)
       case None => false
       case Some(there) => Reserved(there)
  }

  // Where one rewrite leads from `name` is not reserved, or is left as it is.
  ghost predicate NextLeft(rules: seq<Rule>, maxHops: nat, valid: string -> bool, name: string) {
    !Reserved(name) && WalkTo(rules, maxHops, valid, name).Aliased? ==>
      match Step(rules, valid, name)
      case None => true
      case Some((_, next)) => Reserved(next) ==> Step(rules, valid, next).None?
  }

  lemma ChainOf(rules: seq<Rule>, maxHops: nat, valid: string -> bool, name: string) returns (n: nat)
    requires WalkTo(rules, maxHops, valid, name).Aliased?
    ensures 1 <= n < maxHops && n == |WalkTo(rules, maxHops, valid, name).applied|
    ensures Ends(rules, valid, name, n, WalkTo(rules, maxHops, valid, name).canonical)
  {
    var walked := WalkTo(rules, maxHops, valid, name);
    AliasedIffEnds(rules, maxHops, valid, name, walked.canonical, walked.applied);
    n :| 1 <= n < maxHops && Ends(rules, valid, name, n, walked.canonical)
         && walked.applied == Path(rules, valid, name, n);
    PathLength(rules, valid, name, n);
  }

  // The first reserved name on the way is the next name of one that is not.
  lemma {:induction false} PassedFromNext(rules: seq<Rule>, maxHops: nat, valid: string -> bool, name: string, k: nat)
    returns (before: string)
    requires PassesReserved(rules, maxHops, valid, name, k)
    ensures !NextLeft(rules, maxHops, valid, before)
    decreases k
  {
    var n := ChainOf(rules, maxHops, valid, name);
    var c := WalkTo(rules, maxHops, valid, name).canonical;
    ChainAgrees(rules, maxHops, valid, name, c, n, k - 1);
    before := After(rules, valid, name, k - 1).value;
    if Reserved(before) {
      before := PassedFromNext(rules, maxHops, valid, name, k - 1);
    } else {
      AfterShorter(rules, valid, name, k + 1, n);
      AfterAdds(rules, valid, name, k - 1, 1);
      AfterAdds(rules, valid, name, k, 1);
      TwoSteps(rules, valid, before, After(rules, valid, name, k), After(rules, valid, name, k + 1));
    }
  }

  lemma TwoSteps(rules: seq<Rule>, valid: string -> bool, name: string, next: Option<string>, last: Option<string>)
    requires next.Some? && next == After(rules, valid, name, 1)
    requires last.Some? && last == After(rules, valid, next.value, 1)
    ensures Step(rules, valid, name).Some? && Step(rules, valid, name).value.1 == next.value
    ensures Step(rules, valid, next.value).Some?
  {
    assert After(rules, valid, name, 1)
        == if Step(rules, valid, name).None? then None else After(rules, valid, Step(rules, valid, name).value.1, 0);
  }

  lemma NextIsPassed(rules: seq<Rule>, maxHops: nat, valid: string -> bool, name: string)
    requires !NextLeft(rules, maxHops, valid, name)
    ensures PassesReserved(rules, maxHops, valid, name, 1)
  {
    var n := ChainOf(rules, maxHops, valid, name);
    var next := Step(rules, valid, name).value.1;
    assert After(rules, valid, name, 1) == After(rules, valid, next, 0) == Some(next);
  }

  // Exactly when a table rewrites no reserved name: whenever the next name of an accepted walk is
  // reserved, no rule matches it.
  lemma ReservedUnpassedIff(rules: seq<Rule>, maxHops: nat, valid: string -> bool)
    ensures (forall name: string, k: nat :: !PassesReserved(rules, maxHops, valid, name, k))
            <==> forall name: string :: NextLeft(rules, maxHops, valid, name)
  {
    if name: string, k: nat :| PassesReserved(rules, maxHops, valid, name, k) {
      var before := PassedFromNext(rules, maxHops, valid, name, k);
    }
    if name: string :| !NextLeft(rules, maxHops, valid, name) {
      NextIsPassed(rules, maxHops, valid, name);
    }
  }

  // So a table no rule of which applies to a reserved name rewrites none.
  lemma ReservedUnmatchedUnpassed(rules: seq<Rule>, maxHops: nat, valid: string -> bool, name: string, k: nat)
    requires forall rule, reserved | rule in rules && Reserved(reserved) :: Apply(rule, valid, reserved).None?
    ensures !PassesReserved(rules, maxHops, valid, name, k)
  {
    if PassesReserved(rules, maxHops, valid, name, k) {
      var before := PassedFromNext(rules, maxHops, valid, name, k);
      var next := Step(rules, valid, before).value.1;
      StepFromIsFirst(rules, valid, next, 0);
    }
  }
}
