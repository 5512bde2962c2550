// The default policy (crates/ikigai-core/src/cache.rs): least recently used goes first.
//
// Against it stands a list machine: the residents as a list, oldest use first. A store moves
// its key to the end and trims from the front until the list fits; a hit moves its key to the
// end; whatever leaves drops out. The cache under `Lru` is proved to be that machine, whatever
// order its maps iterate in.

module CacheLru {
  import opened Wrappers
  import opened Words
  import opened CacheEntries
  import opened Cache
  import opened CacheAccounting

  // The index of the smallest score, the first of equals, or none for no residents.
  function ArgMin(resident: seq<EntryFacts>, score: EntryFacts -> nat): (least: Option<nat>)
    ensures least.None? <==> resident == []
    ensures least.Some? ==>
              && least.value < |resident|
              && (forall i | 0 <= i < |resident| :: score(resident[least.value]) <= score(resident[i]))
              && (forall i | 0 <= i < least.value :: score(resident[least.value]) < score(resident[i]))
  {
    if resident == [] then None
    else
      var n := |resident| - 1;
      match ArgMin(resident[..n], score)
      case None => Some(n)
      case Some(i) =>
        assert forall j | 0 <= j < n :: resident[..n][j] == resident[j];
        if score(resident[n]) < score(resident[i]) then Some(n) else Some(i)
  }

  function Lru(bound: CacheBound): CachePolicy {
    CachePolicy(bound,
                (facts: EntryFacts) => facts.bytes <= bound.maxBytes,
                resident => ArgMin(resident, (facts: EntryFacts) => facts.lastUsedTick),
                (facts, resident) => true,
                false,
                resident => false)
  }

  // ---- the list machine ----

  datatype Item = Item(key: CacheKey, bytes: nat)

  function Total(items: seq<Item>): nat {
    if items == [] then 0 else items[0].bytes + Total(items[1..])
  }

  predicate Fits(items: seq<Item>, bound: CacheBound) {
    |items| <= bound.maxEntries && Total(items) <= bound.maxBytes
  }

  function Trim(items: seq<Item>, bound: CacheBound): seq<Item> {
    if Fits(items, bound) then items else Trim(items[1..], bound)
  }

  function Drop(items: seq<Item>, key: CacheKey): seq<Item> {
    if items == [] then []
    else if items[0].key == key then Drop(items[1..], key)
    else [items[0]] + Drop(items[1..], key)
  }

  // Trimming keeps the longest most recently used run that fits: a suffix, and no longer one.
  lemma {:induction false} TrimIsLongestFit(items: seq<Item>, bound: CacheBound)
    ensures exists i :: 0 <= i <= |items| && Trim(items, bound) == items[i..] && Fits(items[i..], bound)
                        && forall j | 0 <= j < i :: !Fits(items[j..], bound)
  {
    if Fits(items, bound) {
      assert items[0..] == items;
    } else {
      TrimIsLongestFit(items[1..], bound);
      var i :| 0 <= i <= |items[1..]| && Trim(items[1..], bound) == items[1..][i..] && Fits(items[1..][i..], bound)
               && forall j | 0 <= j < i :: !Fits(items[1..][j..], bound);
      assert items[1..][i..] == items[i + 1..];
      forall j | 0 <= j < i + 1 ensures !Fits(items[j..], bound) {
        if j > 0 {
          assert items[1..][j - 1..] == items[j..];
        } else {
          assert items[0..] == items;
        }
      }
    }
  }

  // ---- the list a state stands for ----

  // `key` was last used strictly before every other resident.
  ghost predicate Oldest(entries: map<CacheKey, Slot>, key: CacheKey) {
    key in entries
    && forall k | k in entries && k != key :: entries[key].lastUsedTick < entries[k].lastUsedTick
  }

  // The residents are exactly `items`, oldest use first, with the sizes given. In particular
  // no two residents were last used at the same tick.
  ghost predicate Holds(items: seq<Item>, entries: map<CacheKey, Slot>) {
    if items == [] then entries == map[]
    else
      var key := items[0].key;
      Oldest(entries, key) && items[0].bytes == entries[key].Bytes() && Holds(items[1..], entries - {key})
  }

  // The list is the only one: a state stands for one list.
  lemma {:induction false} HoldsOnce(items: seq<Item>, items': seq<Item>, entries: map<CacheKey, Slot>)
    requires Holds(items, entries) && Holds(items', entries)
    ensures items == items'
  {
    if items != [] && items' != [] {
      var key := items[0].key;
      HoldsOnce(items[1..], items'[1..], entries - {key});
      assert items == [items[0]] + items[1..] && items' == [items'[0]] + items'[1..];
    }
  }

  lemma {:induction false} HoldsTotal(items: seq<Item>, entries: map<CacheKey, Slot>)
    requires Holds(items, entries)
    ensures Total(items) == SumBytes(entries) && |items| == |entries|
  {
    if items != [] {
      var key := items[0].key;
      SumWithout(entries, key);
      HoldsTotal(items[1..], entries - {key});
      assert (entries - {key}).Keys == entries.Keys - {key};
    }
  }

  // A key used later than every resident goes to the end of the list.
  lemma {:induction false} HoldsAppend(items: seq<Item>, entries: map<CacheKey, Slot>, key: CacheKey, slot: Slot)
    requires Holds(items, entries) && key !in entries
    requires forall k | k in entries :: entries[k].lastUsedTick < slot.lastUsedTick
    ensures Holds(items + [Item(key, slot.Bytes())], entries[key := slot])
  {
    var more := entries[key := slot];
    var longer := items + [Item(key, slot.Bytes())];
    if items == [] {
      assert longer[1..] == [];
      assert more - {key} == map[];
    } else {
      var first := items[0].key;
      HoldsAppend(items[1..], entries - {first}, key, slot);
      assert longer[1..] == items[1..] + [Item(key, slot.Bytes())];
      assert more - {first} == (entries - {first})[key := slot];
    }
  }

  // What leaves drops out of the list, and nothing else moves.
  lemma {:induction false} HoldsDrop(items: seq<Item>, entries: map<CacheKey, Slot>, key: CacheKey)
    requires Holds(items, entries)
    ensures Holds(Drop(items, key), entries - {key})
  {
    if items == [] {
      assert entries - {key} == map[];
    } else {
      var first := items[0].key;
      HoldsDrop(items[1..], entries - {first}, key);
      if first == key {
        assert entries - {first} - {key} == entries - {key};
      } else {
        assert ([items[0]] + Drop(items[1..], key))[1..] == Drop(items[1..], key);
        assert entries - {key} - {first} == entries - {first} - {key};
        assert Oldest(entries - {key}, first);
      }
    }
  }

  // ---- the invariant ----

  ghost predicate UsedBy(s: CacheState) {
    forall k | k in s.entries :: s.entries[k].lastUsedTick <= s.tick
  }

  ghost predicate Within(s: CacheState, bound: CacheBound) {
    |s.entries| <= bound.maxEntries && s.bytes <= bound.maxBytes
  }

  // The state stands for the list, no tick is ahead of the clock, and the total is exact.
  ghost predicate StandsFor(items: seq<Item>, s: CacheState) {
    Holds(items, s.entries) && UsedBy(s) && Accounted(s)
  }

  // A bound whose bytes can be counted twice over without leaving the word.
  predicate Countable(bound: CacheBound) {
    bound.maxBytes + bound.maxBytes <= WORD_MAX
  }

  // ---- one eviction ----

  // Whatever order the map is walked in, the entry that goes is the head of the list.
  lemma LruChoosesHead(s: CacheState, bound: CacheBound, keys: seq<CacheKey>, oldest: CacheKey)
    requires Oldest(s.entries, oldest) && Lists(keys, s.entries.Keys)
    requires forall k | k in keys :: k in s.entries
    ensures s.Choice(Lru(bound), keys) == if s.Over(bound) then Some(oldest) else None
  {
    var facts := s.FactsOf(keys);
    assert oldest in s.entries.Keys;
    var j :| 0 <= j < |keys| && keys[j] == oldest;
    var i := Lru(bound).victim(facts).value;
    assert facts[i].lastUsedTick <= facts[j].lastUsedTick;
    assert keys[i] in s.entries;
  }

  lemma EnforceOnce(s: CacheState, policy: CachePolicy, end: CacheState) returns (keys: seq<CacheKey>)
    requires s.Enforced(policy, end)
    ensures Lists(keys, s.entries.Keys) && s.EnforcedBy(policy, keys, end)
  {
    keys :| Lists(keys, s.entries.Keys) && s.EnforcedBy(policy, keys, end);
  }

  // The eviction loop trims the list.
  lemma {:induction false} EnforceTrims(items: seq<Item>, s: CacheState, bound: CacheBound, end: CacheState)
    requires StandsFor(items, s) && s.Enforced(Lru(bound), end)
    ensures StandsFor(Trim(items, bound), end) && Within(end, bound)
    decreases |items|
  {
    var keys := EnforceOnce(s, Lru(bound), end);
    HoldsTotal(items, s.entries);
    if items == [] {
      ListsLength(keys, s.entries.Keys);
    } else {
      var oldest := items[0].key;
      LruChoosesHead(s, bound, keys, oldest);
      if s.Over(bound) {
        EvictKeepsAccount(s, oldest);
        EnforceTrims(items[1..], s.Evict(oldest), bound, end);
      }
    }
  }

  // ---- the operations ----

  function ListStored(items: seq<Item>, key: CacheKey, bytes: nat, bound: CacheBound): seq<Item> {
    Trim(Drop(items, key) + [Item(key, bytes)], bound)
  }

  // An accepted store: the residents are the longest most recently used run that fits, with
  // the new entry the most recent. A declined one leaves them as they were.
  lemma LruStores(items: seq<Item>, s: CacheState, bound: CacheBound, c: Candidate,
                  outcome: Result<(), Declined>, end: CacheState)
    requires StandsFor(items, s) && Within(s, bound) && Countable(bound)
    requires s.Stores(Lru(bound), c, outcome, end)
    ensures Within(end, bound)
    ensures outcome.Err? ==> StandsFor(items, end)
    ensures outcome.Ok? ==> StandsFor(ListStored(items, c.key, BodySize(c.representation.body), bound), end)
  {
    if outcome.Ok? {
      var ticked := s.Ticked();
      var kept: CacheState :| ticked.Filed(c).Enforced(Lru(bound), kept) && end == kept.Sweep(bound.maxEntries);
      assert Lru(bound).admit(ticked.CandidateFacts(c));
      LruFiled(items, ticked, bound, c, kept);
      SweepKeepsEntries(kept, bound.maxEntries);
    }
  }

  lemma LruFiled(items: seq<Item>, s: CacheState, bound: CacheBound, c: Candidate, kept: CacheState)
    requires Holds(items, s.entries) && Accounted(s) && s.bytes <= bound.maxBytes && Countable(bound)
    requires forall k | k in s.entries :: s.entries[k].lastUsedTick < s.tick
    requires BodySize(c.representation.body) <= bound.maxBytes && s.Filed(c).Enforced(Lru(bound), kept)
    ensures Within(kept, bound) && StandsFor(ListStored(items, c.key, BodySize(c.representation.body), bound), kept)
  {
    LruFiles(items, s, bound, c);
    EnforceTrims(Drop(items, c.key) + [Item(c.key, BodySize(c.representation.body))], s.Filed(c), bound, kept);
  }

  lemma LruFiles(items: seq<Item>, s: CacheState, bound: CacheBound, c: Candidate)
    requires Holds(items, s.entries) && Accounted(s) && s.bytes <= bound.maxBytes && Countable(bound)
    requires forall k | k in s.entries :: s.entries[k].lastUsedTick < s.tick
    requires BodySize(c.representation.body) <= bound.maxBytes
    ensures StandsFor(Drop(items, c.key) + [Item(c.key, BodySize(c.representation.body))], s.Filed(c))
  {
    RestSum(s, c.key);
    FiledAccount(s, c);
    HoldsDrop(items, s.entries, c.key);
    HoldsAppend(Drop(items, c.key), s.entries - {c.key}, c.key, s.Entry(c));
    assert s.Filed(c).entries == (s.entries - {c.key})[c.key := s.Entry(c)];
  }

  // Under LRU the contest is never lost, so a store is declined only by the race check, a
  // one-shot body or a size over the whole byte bound.
  lemma LruDeclines(s: CacheState, bound: CacheBound, c: Candidate, outcome: Result<(), Declined>, end: CacheState)
    requires s.Stores(Lru(bound), c, outcome, end)
    ensures outcome.Ok? <==> !c.representation.body.Once?
                             && !s.CutSince(c.representation.threads, c.taken)
                             && BodySize(c.representation.body) <= bound.maxBytes
  {
  }

  // What a lookup leaves of the list: a hit moves its key to the end, and anything else keeps
  // the list or drops the key.
  function ListServed(items: seq<Item>, key: CacheKey, served: Served, resident: bool): seq<Item> {
    match served
    case Hit(slot) => Drop(items, key) + [Item(key, slot.Bytes())]
    case _ => if resident then items else Drop(items, key)
  }

  lemma LruServes(items: seq<Item>, s: CacheState, key: CacheKey, now: Option<Time>, face: Slot -> bool,
                  offer: Slot -> bool)
    requires StandsFor(items, s)
    ensures var (served, end) := s.Serves(key, now, face, offer);
            StandsFor(ListServed(items, key, served, key in end.entries), end)
            && |end.entries| <= |s.entries| && end.bytes <= s.bytes
  {
    var (served, end) := s.Serves(key, now, face, offer);
    ServeShape(s, key, now, face, offer);
    ServeKeepsAccount(s, key, now, face, offer);
    if served.Hit? {
      LruHits(items, s, key);
      assert end.entries.Keys == s.entries.Keys;
    } else {
      LruLoses(items, s, key);
    }
  }

  lemma LruHits(items: seq<Item>, s: CacheState, key: CacheKey)
    requires Holds(items, s.entries) && UsedBy(s) && key in s.entries
    ensures Holds(Drop(items, key) + [Item(key, s.entries[key].Bytes())], Touched(s, key).entries)
    ensures UsedBy(Touched(s, key))
  {
    var used := Touched(s, key).entries[key];
    HoldsDrop(items, s.entries, key);
    HoldsAppend(Drop(items, key), s.entries - {key}, key, used);
    assert s.entries[key := used] == (s.entries - {key})[key := used];
  }

  // A key that leaves, or was never there, drops out of the list.
  lemma LruLoses(items: seq<Item>, s: CacheState, key: CacheKey)
    requires Holds(items, s.entries)
    ensures key in s.entries ==> Holds(Drop(items, key), s.Evict(key).entries) && |s.Evict(key).entries| <= |s.entries|
    ensures key !in s.entries ==> Holds(Drop(items, key), s.entries)
  {
    HoldsDrop(items, s.entries, key);
    if key in s.entries {
      Shrinks(s.entries, key);
    } else {
      assert s.entries - {key} == s.entries;
    }
  }

  lemma LruDiscards(items: seq<Item>, s: CacheState, key: CacheKey, tick: nat)
    requires StandsFor(items, s)
    ensures var end := s.Discards(key, tick);
            StandsFor(if key in end.entries then items else Drop(items, key), end)
            && |end.entries| <= |s.entries| && end.bytes <= s.bytes
  {
    HoldsDrop(items, s.entries, key);
    if key in s.entries {
      Shrinks(s.entries, key);
      EvictKeepsAccount(s, key);
    } else {
      assert s.entries - {key} == s.entries;
    }
  }

  // ---- every run ----

  ghost predicate IsLruRun(run: seq<CacheState>, steps: seq<Step>, bound: CacheBound) {
    && |run| == |steps| + 1 && run[0] == EMPTY
    && forall i | 0 <= i < |steps| :: Steps(run[i], steps[i], run[i + 1], Lru(bound))
  }

  // The list machine's step: what the cache's step does to the list.
  function ListStep(items: seq<Item>, s: CacheState, step: Step, s': CacheState, bound: CacheBound): seq<Item> {
    match step
    case Storing(c, Ok(_)) => ListStored(items, c.key, BodySize(c.representation.body), bound)
    case Serving(key, now, face, offer) =>
      ListServed(items, key, s.Serves(key, now, face, offer).0, key in s'.entries)
    case Discarding(key, _) => if key in s'.entries then items else Drop(items, key)
    case _ => items
  }

  lemma StepRefines(items: seq<Item>, s: CacheState, step: Step, s': CacheState, bound: CacheBound)
    requires StandsFor(items, s) && Within(s, bound) && Countable(bound) && Steps(s, step, s', Lru(bound))
    ensures StandsFor(ListStep(items, s, step, s', bound), s') && Within(s', bound)
  {
    match step
    case Storing(c, outcome) => LruStores(items, s, bound, c, outcome, s');
    case Serving(key, now, face, offer) => LruServes(items, s, key, now, face, offer);
    case Discarding(key, tick) => LruDiscards(items, s, key, tick);
    case _ =>
  }

  // The list machine run beside the cache.
  function ListRun(run: seq<CacheState>, steps: seq<Step>, bound: CacheBound): seq<Item>
    requires |run| == |steps| + 1
  {
    if steps == [] then []
    else
      var n := |steps| - 1;
      ListStep(ListRun(run[..n + 1], steps[..n], bound), run[n], steps[n], run[n + 1], bound)
  }

  // In every run under LRU, the cache is the list machine: its residents are the list, in
  // order of use, with an exact byte total and within both bounds.
  lemma {:induction false} LruRunsRefine(run: seq<CacheState>, steps: seq<Step>, bound: CacheBound)
    requires IsLruRun(run, steps, bound) && Countable(bound)
    ensures StandsFor(ListRun(run, steps, bound), run[|steps|]) && Within(run[|steps|], bound)
    decreases |steps|
  {
    if steps != [] {
      var n := |steps| - 1;
      LruRunsRefine(run[..n + 1], steps[..n], bound);
      StepRefines(ListRun(run[..n + 1], steps[..n], bound), run[n], steps[n], run[n + 1], bound);
    }
  }

  // ---- the edge of the word ----

  // Two bodies, each the whole byte bound, under two keys.
  function Heavy(word: nat, bound: CacheBound): Candidate {
    Candidate(CacheKey(RequestId((word, 0, 0, 0)), 0, 0), "urn:x",
              Representation("text/plain", Buffer(bound.maxBytes), Never, {}, None), 0, None, None)
  }

  // The eviction loop always ends somewhere.
  lemma {:induction false} EnforcedSomewhere(s: CacheState, policy: CachePolicy) returns (end: CacheState)
    ensures s.Enforced(policy, end)
    decreases |s.entries|
  {
    var keys := SomeListing(s.entries.Keys);
    assert forall k | k in keys :: k in s.entries.Keys;
    match s.Choice(policy, keys)
    case None =>
      end := s;
      assert s.EnforcedBy(policy, keys, end);
    case Some(key) =>
      Shrinks(s.entries, key);
      end := EnforcedSomewhere(s.Evict(key), policy);
      assert s.EnforcedBy(policy, keys, end);
  }

  lemma {:induction false} SomeListing<T(!new)>(all: set<T>) returns (keys: seq<T>)
    ensures Lists(keys, all)
    decreases |all|
  {
    if all == {} {
      keys := [];
    } else {
      var k :| k in all;
      var rest := SomeListing(all - {k});
      keys := rest + [k];
    }
  }

  // An uncontested store of a body no larger than the bound.
  lemma StoreSomewhere(s: CacheState, c: Candidate, bound: CacheBound) returns (kept: CacheState)
    requires c.representation.body.Buffer? && c.representation.body.len <= bound.maxBytes
    requires c.representation.threads == {}
    ensures s.Ticked().Filed(c).Enforced(Lru(bound), kept)
    ensures s.Stores(Lru(bound), c, Ok(()), kept.Sweep(bound.maxEntries))
  {
    var ticked := s.Ticked();
    var keys := SomeListing(ticked.entries.Keys);
    assert forall k | k in keys :: k in ticked.entries.Keys;
    assert ticked.ContestAnswers(Lru(bound), c, true);
    kept := EnforcedSomewhere(ticked.Filed(c), Lru(bound));
  }

  // Under a bound that is not countable, two stores of whole-bound bodies leave the total
  // short of what the cache holds.
  lemma UncountableLosesCount(bound: CacheBound) returns (run: seq<CacheState>, steps: seq<Step>)
    requires !Countable(bound) && bound.maxBytes <= WORD_MAX && bound.maxEntries > 0
    ensures IsLruRun(run, steps, bound) && !Accounted(run[|steps|])
  {
    var a, b := Heavy(0, bound), Heavy(1, bound);
    var keptA := StoreSomewhere(EMPTY, a, bound);
    FirstStays(a, bound, keptA);
    var second := SecondOverflows(bound, a, b, keptA.Sweep(bound.maxEntries));
    run, steps := [EMPTY, keptA.Sweep(bound.maxEntries), second], [Storing(a, Ok(())), Storing(b, Ok(()))];
    TwoSteps(bound, run, steps);
  }

  lemma TwoSteps(bound: CacheBound, run: seq<CacheState>, steps: seq<Step>)
    requires |run| == 3 && |steps| == 2 && run[0] == EMPTY
    requires Steps(run[0], steps[0], run[1], Lru(bound)) && Steps(run[1], steps[1], run[2], Lru(bound))
    ensures IsLruRun(run, steps, bound)
  {
  }

  lemma SecondOverflows(bound: CacheBound, a: Candidate, b: Candidate, first: CacheState)
    returns (second: CacheState)
    requires !Countable(bound) && bound.maxBytes <= WORD_MAX && bound.maxEntries > 0
    requires a == Heavy(0, bound) && b == Heavy(1, bound)
    requires first == EMPTY.Ticked().Filed(a).Sweep(bound.maxEntries)
    ensures first.Stores(Lru(bound), b, Ok(()), second) && !Accounted(second)
  {
    var keptB := StoreSomewhere(first, b, bound);
    second := keptB.Sweep(bound.maxEntries);
    OverflowStays(first.Ticked().Filed(b), a, b, bound, keptB);
  }

  lemma FirstStays(a: Candidate, bound: CacheBound, kept: CacheState)
    requires bound.maxBytes <= WORD_MAX && bound.maxEntries > 0 && a == Heavy(0, bound)
    requires EMPTY.Ticked().Filed(a).Enforced(Lru(bound), kept)
    ensures kept == EMPTY.Ticked().Filed(a)
  {
    var filed := EMPTY.Ticked().Filed(a);
    assert filed.entries.Keys == {a.key};
    var keys := EnforceOnce(filed, Lru(bound), kept);
    LruChoosesHead(filed, bound, keys, a.key);
  }

  lemma OverflowStays(filed: CacheState, a: Candidate, b: Candidate, bound: CacheBound, end: CacheState)
    requires !Countable(bound) && bound.maxBytes <= WORD_MAX && bound.maxEntries > 0
    requires a.key != b.key
    requires filed.entries.Keys == {a.key, b.key} && Oldest(filed.entries, a.key) && filed.bytes == WORD_MAX
    requires filed.entries[a.key].Bytes() == bound.maxBytes && filed.entries[b.key].Bytes() == bound.maxBytes
    requires filed.Enforced(Lru(bound), end)
    ensures !Accounted(end)
  {
    SumOfTwo(filed.entries, a.key, b.key);
    var keys := EnforceOnce(filed, Lru(bound), end);
    LruChoosesHead(filed, bound, keys, a.key);
    if filed.Over(bound) {
      assert filed.Evict(a.key).entries.Keys == {b.key};
      ShortStays(filed.Evict(a.key), b.key, bound, end);
    }
  }

  lemma SumOfTwo(entries: map<CacheKey, Slot>, a: CacheKey, b: CacheKey)
    requires a != b && entries.Keys == {a, b}
    ensures SumBytes(entries) == entries[a].Bytes() + entries[b].Bytes()
    ensures SumBytes(entries - {a}) == entries[b].Bytes()
  {
    SumWithout(entries, a);
    SumWithout(entries - {a}, b);
    assert entries - {a} - {b} == map[];
  }

  // One entry left, within its bound, with a total short of its size: nothing more goes.
  lemma ShortStays(s: CacheState, key: CacheKey, bound: CacheBound, end: CacheState)
    requires s.entries.Keys == {key} && s.bytes < SumBytes(s.entries) && s.bytes <= bound.maxBytes
    requires bound.maxEntries > 0 && s.Enforced(Lru(bound), end)
    ensures !Accounted(end)
  {
    var keys := EnforceOnce(s, Lru(bound), end);
    LruChoosesHead(s, bound, keys, key);
  }

  // So the byte total is the sum of the resident sizes in every run exactly when twice the
  // byte bound fits the word.
  lemma LruAccountsIffCountable(bound: CacheBound)
    requires bound.maxBytes <= WORD_MAX && bound.maxEntries > 0
    ensures (forall run, steps | IsLruRun(run, steps, bound) :: Accounted(run[|steps|])) <==> Countable(bound)
  {
    if Countable(bound) {
      forall run, steps | IsLruRun(run, steps, bound) ensures Accounted(run[|steps|]) {
        LruRunsRefine(run, steps, bound);
      }
    } else {
      var run, steps := UncountableLosesCount(bound);
    }
  }
}
