// The alias table (crates/ikigai-core/src/alias.rs): rules kept in precedence order, and the walk
// that follows the first matching rule until none matches.
//
// The counters are not part of this model.

module AliasOrder {
  import opened Wrappers
  import opened Sorting
  import opened Utf8
  import opened AliasRules

  function Keyword(kind: MatchKind): string {
    match kind
    case ExactMatch => "exact"
    case PrefixMatch => "prefix"
    case TemplateMatch => "template"
  }

  function Rank(kind: MatchKind): nat {
    match kind
    case ExactMatch => 0
    case PrefixMatch => 1
    case TemplateMatch => 2
  }

  // What the table is sorted by: the longest logical name first, then the keyword, then the name.
  function RuleKey(rule: Rule): seq<int> {
    [-|Encode(rule.from)|, Rank(rule.Matches())] + Encode(rule.from)
  }

  // The keywords stand in the order their texts do.
  lemma RankIsKeywordOrder(a: MatchKind, b: MatchKind)
    ensures Rank(a) < Rank(b) <==> LexLess(Encode(Keyword(a)), Encode(Keyword(b)))
  {
    FirstByte(a);
    FirstByte(b);
    LexIrreflexive(Encode(Keyword(a)));
  }

  lemma FirstByte(kind: MatchKind)
    ensures Encode(Keyword(kind)) != []
    ensures Encode(Keyword(kind))[0]
            == match kind case ExactMatch => 101 case PrefixMatch => 112 case TemplateMatch => 116
  {
  }

  // Two rules have one place in the order exactly when they match the same way and rewrite the
  // same name.
  lemma SameKey(a: Rule, b: Rule)
    ensures RuleKey(a) == RuleKey(b) <==> a.Matches() == b.Matches() && a.from == b.from
  {
    if RuleKey(a) == RuleKey(b) {
      assert RuleKey(a)[1] == RuleKey(b)[1];
      assert RuleKey(a)[2..] == Encode(a.from) && RuleKey(b)[2..] == Encode(b.from);
      EncodeInjective(a.from, b.from);
    }
  }

  function Sorted(rules: seq<Rule>): seq<Rule> { StableSort(rules, RuleKey) }

  ghost predicate InOrder(rules: seq<Rule>) { Ascending(rules, RuleKey) }

  // Precedence, rule against rule.
  predicate Outranks(a: Rule, b: Rule) {
    || |Encode(a.from)| > |Encode(b.from)|
    || (|Encode(a.from)| == |Encode(b.from)|
        && (Rank(a.Matches()) < Rank(b.Matches())
            || (a.Matches() == b.Matches() && LexLess(Encode(a.from), Encode(b.from)))))
  }

  lemma OutranksIsOrder(a: Rule, b: Rule)
    ensures LexLess(RuleKey(a), RuleKey(b)) <==> Outranks(a, b)
  {
    assert RuleKey(a)[1..][1..] == Encode(a.from) && RuleKey(b)[1..][1..] == Encode(b.from);
    assert RuleKey(a)[1..][0] == Rank(a.Matches()) && RuleKey(b)[1..][0] == Rank(b.Matches());
  }

  // The table's order: no rule is outranked by one after it.
  lemma InOrderIsPrecedence(rules: seq<Rule>)
    ensures InOrder(rules) <==> forall i, j | 0 <= i < j < |rules| :: !Outranks(rules[j], rules[i])
  {
    forall i, j | 0 <= i < j < |rules|
      ensures LexLess(RuleKey(rules[j]), RuleKey(rules[i])) <==> Outranks(rules[j], rules[i])
    {
      OutranksIsOrder(rules[j], rules[i]);
    }
  }

  ghost predicate DistinctRules(rules: seq<Rule>) {
    forall i, j | 0 <= i < j < |rules| :: rules[i].Matches() != rules[j].Matches() || rules[i].from != rules[j].from
  }

  lemma {:induction false} AlikeDistinct(rules: seq<Rule>, k: seq<int>)
    requires DistinctRules(rules)
    ensures |Alike(rules, RuleKey, k)| <= 1
  {
    if rules != [] {
      AlikeDistinct(rules[1..], k);
      if RuleKey(rules[0]) == k {
        forall j | 0 <= j < |rules| - 1 ensures RuleKey(rules[1..][j]) != k {
          assert rules[j + 1] == rules[1..][j];
          SameKey(rules[0], rules[j + 1]);
        }
        AlikeNowhere(rules[1..], RuleKey, k);
      }
    }
  }

  lemma AlikeOnce(rules: seq<Rule>, others: seq<Rule>, k: seq<int>)
    requires DistinctRules(rules) && DistinctRules(others) && forall rule :: rule in rules <==> rule in others
    ensures Alike(rules, RuleKey, k) == Alike(others, RuleKey, k)
  {
    AlikeDistinct(rules, k);
    AlikeDistinct(others, k);
    AlikeIn(rules, RuleKey, k);
    AlikeIn(others, RuleKey, k);
    OneEach(Alike(rules, RuleKey, k), Alike(others, RuleKey, k));
  }

  lemma OneEach<T(!new)>(a: seq<T>, b: seq<T>)
    requires |a| <= 1 && |b| <= 1 && forall x :: x in a <==> x in b
    ensures a == b
  {
    if a != [] {
      assert a[0] in b;
    }
    if b != [] {
      assert b[0] in a;
    }
  }

  // Rules pairwise distinct in match kind and logical name end in one order, whatever order they
  // came in.
  lemma OrderIndependent(rules: seq<Rule>, others: seq<Rule>)
    requires DistinctRules(rules) && DistinctRules(others) && forall rule :: rule in rules <==> rule in others
    ensures Sorted(rules) == Sorted(others)
  {
    forall k ensures Alike(rules, RuleKey, k) == Alike(others, RuleKey, k) {
      AlikeOnce(rules, others, k);
    }
    SortedAlikeIff(rules, others, RuleKey);
  }

  // Sorting again after every addition is sorting once after the last.
  lemma SortedAgain(rules: seq<Rule>, rule: Rule)
    ensures Sorted(Sorted(rules) + [rule]) == Sorted(rules + [rule])
    ensures forall r :: r in Sorted(rules + [rule]) <==> r in rules || r == rule
  {
    StableSortSorts(rules, RuleKey);
    StableSortSorts(rules + [rule], RuleKey);
    SortedStays(Sorted(rules), RuleKey);
    assert (Sorted(rules) + [rule])[..|Sorted(rules)|] == Sorted(rules);
    assert (rules + [rule])[..|rules|] == rules;
  }
}

module AliasTables {
  import opened Wrappers
  import opened Text
  import opened Sorting
  import opened Grammar
  import opened ContractIris
  import opened AliasRules
  import opened AliasOrder

  const KERNEL_NS: string := "urn:kernel:"
  const DEFAULT_MAX_HOPS: nat := 8

  function AsciiLower(c: char): char {
    if 'A' <= c <= 'Z' then (c as int + 32) as char else c
  }

  // The reserved namespace, in any case of its prefix.
  predicate Reserved(target: string) {
    |target| >= |KERNEL_NS| && forall k | 0 <= k < |KERNEL_NS| :: AsciiLower(target[k]) == KERNEL_NS[k]
  }

  // The letter `low` in either case.
  predicate InCase(c: char, low: char) { c == low || (c as int + 32 == low as int && 'A' <= c <= 'Z') }

  lemma LowerIff(c: char, low: char)
    requires 'a' <= low <= 'z' || low == ':'
    ensures AsciiLower(c) == low <==> InCase(c, low)
  {
  }

  lemma KernelPrefix(k: nat)
    requires k < 11
    ensures |KERNEL_NS| == 11 && KERNEL_NS[k] == ['u', 'r', 'n', ':', 'k', 'e', 'r', 'n', 'e', 'l', ':'][k]
  {
  }

  // The prefix, letter by letter, in any case.
  lemma ReservedIff(t: string)
    ensures Reserved(t)
            <==> |t| >= 11 && forall k | 0 <= k < 11 ::
                   InCase(t[k], ['u', 'r', 'n', ':', 'k', 'e', 'r', 'n', 'e', 'l', ':'][k])
  {
    KernelPrefix(0);
    if |t| >= 11 {
      forall k | 0 <= k < 11
        ensures AsciiLower(t[k]) == KERNEL_NS[k]
                <==> InCase(t[k], ['u', 'r', 'n', ':', 'k', 'e', 'r', 'n', 'e', 'l', ':'][k])
      {
        KernelPrefix(k);
        LowerIff(t[k], KERNEL_NS[k]);
      }
    }
  }

  // The first rule that matches, and what it rewrites to.
  function StepFrom(rules: seq<Rule>, valid: string -> bool, target: string, from: nat): (step: Option<(nat, string)>)
    requires from <= |rules|
    ensures step.Some? ==> from <= step.value.0 < |rules|
    decreases |rules| - from
  {
    if from == |rules| then None
    else
      match Apply(rules[from], valid, target)
      case Some((next, _)) => Some((from, next))
      case None => StepFrom(rules, valid, target, from + 1)
  }

  function Step(rules: seq<Rule>, valid: string -> bool, target: string): (step: Option<(nat, string)>)
    ensures step.Some? ==> step.value.0 < |rules|
  {
    StepFrom(rules, valid, target, 0)
  }

  ghost predicate MatchedBy(rules: seq<Rule>, valid: string -> bool, target: string, index: nat, next: string) {
    && index < |rules|
    && Apply(rules[index], valid, target).Some? && Apply(rules[index], valid, target).value.0 == next
    && forall j | 0 <= j < index :: Apply(rules[j], valid, target).None?
  }

  lemma {:induction false} StepFromIsFirst(rules: seq<Rule>, valid: string -> bool, target: string, from: nat)
    requires from <= |rules| && forall j | 0 <= j < from :: Apply(rules[j], valid, target).None?
    ensures match StepFrom(rules, valid, target, from)
            case Some((index, next)) => MatchedBy(rules, valid, target, index, next)
            case None => forall rule | rule in rules :: Apply(rule, valid, target).None?
    decreases |rules| - from
  {
    if from < |rules| && Apply(rules[from], valid, target).None? {
      StepFromIsFirst(rules, valid, target, from + 1);
    }
  }

  // In a table in order, the rule that applies is one no matching rule outranks.
  lemma StepIsMostSpecific(rules: seq<Rule>, valid: string -> bool, target: string)
    requires InOrder(rules) && Step(rules, valid, target).Some?
    ensures var (index, next) := Step(rules, valid, target).value;
            && MatchedBy(rules, valid, target, index, next)
            && forall rule | rule in rules && Apply(rule, valid, target).Some? :: !Outranks(rule, rules[index])
  {
    StepFromIsFirst(rules, valid, target, 0);
    InOrderIsPrecedence(rules);
    var index := Step(rules, valid, target).value.0;
    forall rule | rule in rules && Apply(rule, valid, target).Some? ensures !Outranks(rule, rules[index]) {
      var j :| 0 <= j < |rules| && rules[j] == rule;
      LexIrreflexive(RuleKey(rule));
      OutranksIsOrder(rule, rule);
    }
  }

  // ---- the walk ----

  datatype Reason = InvalidName(name: string) | Cycle | TooLong

  datatype Canonical =
    | Direct
    | Aliased(canonical: string, applied: seq<nat>)
    | Refused(reason: Reason, trail: seq<string>, applied: seq<nat>)

  function WalkFrom(rules: seq<Rule>, valid: string -> bool, current: string, trail: seq<string>, applied: seq<nat>,
                    hops: nat): Canonical
    decreases hops
  {
    if hops == 0 then Refused(TooLong, trail, applied)
    else
      match Step(rules, valid, current)
      case None => if applied == [] then Direct else Aliased(current, applied)
      case Some((index, next)) =>
        if !valid(next) then Refused(InvalidName(next), trail, applied + [index])
        else if next in trail then Refused(Cycle, trail + [next], applied + [index])
        else WalkFrom(rules, valid, next, trail + [next], applied + [index], hops - 1)
  }

  function WalkTo(rules: seq<Rule>, maxHops: nat, valid: string -> bool, target: string): Canonical {
    if Reserved(target) then Direct else WalkFrom(rules, valid, target, [target], [], maxHops)
  }

  class AliasTable {
    var rules: seq<Rule>
    var maxHops: nat
    ghost var added: seq<Rule> // in the order they were added

    constructor ()
      ensures Valid() && Checked() && rules == [] && added == [] && maxHops == DEFAULT_MAX_HOPS
    {
      rules, added, maxHops := [], [], DEFAULT_MAX_HOPS;
    }

    // What was added, in order, and with a hop to spend.
    ghost predicate Valid()
      reads this
    {
      rules == Sorted(added) && InOrder(rules) && maxHops > 0
    }

    // Every rule has passed the check of stated rules, or is plain.
    ghost predicate Checked()
      reads this
    {
      forall rule | rule in rules :: Sound(rule)
    }

    method Insert(rule: Rule)
      requires Valid()
      modifies this`rules, this`added
      ensures Valid() && (old(Checked()) && Sound(rule) ==> Checked())
      ensures rules == Sorted(old(rules) + [rule]) && added == old(added) + [rule]
      ensures rules == Place(old(rules), rule, RuleKey)
    {
      SortedAgain(added, rule);
      StableSortSorts(added, RuleKey);
      StableSortSorts(rules + [rule], RuleKey);
      SortedStays(rules, RuleKey);
      assert (rules + [rule])[..|rules|] == rules;
      rules := rules + [rule];
      rules := Sorted(rules);
      added := added + [rule];
    }

    // Add a stated rule: refused, and nothing added, exactly when it is not acceptable.
    method WithRule(rule: Stated, valid: string -> bool) returns (r: Result<(), Refusal>)
      requires Valid()
      modifies this`rules, this`added
      ensures Valid() && (old(Checked()) ==> Checked()) && (r.Ok? <==> Acceptable(rule, valid))
      ensures rules == if r.Ok? then Sorted(old(rules) + [Built(rule)]) else old(rules)
      ensures added == if r.Ok? then old(added) + [Built(rule)] else old(added)
    {
      var request := RequestPartOf(rule, valid);
      match request
      case Err(e) => return Err(e);
      case Ok(part) =>
        AcceptedIsSound(rule, valid);
        Insert(Rule(rule.kind, rule.from, rule.to, rule.at, part));
        return Ok(());
    }

    // A plain rewrite.
    method RuleAt(kind: RuleKind, from: string, to: string, at: ResolveAt)
      requires Valid()
      modifies this`rules, this`added
      ensures Valid() && (old(Checked()) ==> Checked())
      ensures rules == Sorted(old(rules) + [Rule(kind, from, to, at, PLAIN)])
      ensures added == old(added) + [Rule(kind, from, to, at, PLAIN)]
    {
      Insert(Rule(kind, from, to, at, PLAIN));
    }

    method WithMaxHops(hops: nat)
      requires Valid()
      modifies this`maxHops
      ensures Valid() && maxHops == if hops == 0 then 1 else hops
    {
      maxHops := if hops == 0 then 1 else hops;
    }

    // Follow the first matching rule until none matches, refusing a name that is not one, a name
    // met again, and a chain that does not end within the hops.
    method Walk(target: string, valid: string -> bool) returns (canonical: Canonical)
      ensures canonical == WalkTo(rules, maxHops, valid, target)
    {
      if Reserved(target) {
        return Direct;
      }
      var current := target;
      var trail := [target];
      var applied: seq<nat> := [];
      for hop := 0 to maxHops
        invariant WalkTo(rules, maxHops, valid, target)
                  == WalkFrom(rules, valid, current, trail, applied, maxHops - hop)
      {
        var step := Step(rules, valid, current);
        if step.None? {
          return if applied == [] then Direct else Aliased(current, applied);
        }
        var (index, next) := step.value;
        applied := applied + [index];
        if !valid(next) {
          return Refused(InvalidName(next), trail, applied);
        }
        if next in trail {
          return Refused(Cycle, trail + [next], applied);
        }
        trail := trail + [next];
        current := next;
      }
      return Refused(TooLong, trail, applied);
    }
  }

  // Two tables given the same rules, pairwise distinct in kind and name, are one table, whatever
  // order each was given them in.
  lemma AddedInAnyOrder(table: AliasTable, other: AliasTable)
    requires table.Valid() && other.Valid() && DistinctRules(table.added) && DistinctRules(other.added)
    requires forall rule :: rule in table.added <==> rule in other.added
    ensures table.rules == other.rules
  {
    OrderIndependent(table.added, other.added);
  }
}
