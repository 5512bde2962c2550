// What each policy a table can name lets in and lets go (crates/ikigai-core/src/cache.rs:440-1060,
// crates/ikigai-core/src/cache_config.rs:113-246), stated of the residents themselves.

module CachePolicies {
  import opened Wrappers
  import opened Words
  import opened CacheEntries
  import opened Cache
  import opened CacheAccounting
  import CacheLru
  import opened CacheScan
  import opened CachePartitioned
  import opened CacheConfigs
  import opened Sketches

  // ---- the least under a comparison ----

  // Nothing precedes itself, and what precedes something precedes all that is not before it.
  ghost predicate Ranks(before: (EntryFacts, EntryFacts) -> bool) {
    && (forall a :: !before(a, a))
    && forall a, b, c :: before(a, b) && !before(c, b) ==> !before(c, a)
  }

  lemma {:induction false} LeastIs(resident: seq<EntryFacts>, keep: EntryFacts -> bool,
                                   before: (EntryFacts, EntryFacts) -> bool, i: nat)
    requires Ranks(before) && i < |resident| && keep(resident[i])
    ensures var least := Least(resident, keep, before);
            least.Some? && !before(resident[i], resident[least.value])
  {
    var n := |resident| - 1;
    var rest := Least(resident[..n], keep, before);
    if i < n {
      LeastIs(resident[..n], keep, before, i);
    }
    if rest.Some? && keep(resident[n]) {
      assert i < n ==> !before(resident[i], resident[rest.value]);
    }
  }

  // ---- FIFO, LRU, cost-aware ----

  ghost predicate OldestUse(resident: seq<EntryFacts>, i: nat) {
    i < |resident| && forall j | 0 <= j < |resident| :: resident[i].lastUsedTick <= resident[j].lastUsedTick
  }

  ghost predicate OldestStored(resident: seq<EntryFacts>, i: nat) {
    i < |resident| && forall j | 0 <= j < |resident| :: resident[i].storedTick <= resident[j].storedTick
  }

  // The cost of a byte held, in 1024ths of a millisecond for each time it was wanted.
  predicate CostsPerByte(facts: EntryFacts, density: nat) {
    var bytes := if facts.bytes == 0 then 1 else facts.bytes;
    var earned := (match facts.costMillis case None => 0 case Some(millis) => millis) * 1024 * (facts.hits + 1);
    density * bytes <= earned < (density + 1) * bytes
  }

  lemma DensityIs(facts: EntryFacts)
    requires (match facts.costMillis case None => 0 case Some(millis) => millis) * 1024 * (facts.hits + 1) <= WORD_MAX
    ensures CostsPerByte(facts, Density(facts))
  {
    var bytes := if facts.bytes == 0 then 1 else facts.bytes;
    var cost := match facts.costMillis case None => 0 case Some(millis) => millis;
    var earned := cost * 1024 * (facts.hits + 1);
    Grows(cost * 1024, facts.hits + 1);
    if cost == 0 {
      assert earned == 0;
    } else {
      Grows(facts.hits + 1, cost * 1024);
    }
    assert Density(facts) == earned / bytes;
    DividesDown(earned, bytes);
  }

  lemma Grows(a: nat, b: nat)
    requires b > 0
    ensures a <= a * b && a * b == b * a
  {
  }

  lemma DividesDown(a: nat, b: nat)
    requires b > 0
    ensures a / b * b <= a < (a / b + 1) * b
  {
    assert a == a / b * b + a % b;
  }

  ghost predicate CheapestHeld(resident: seq<EntryFacts>, i: nat) {
    && i < |resident|
    && forall j | 0 <= j < |resident| ::
         || Density(resident[i]) < Density(resident[j])
         || (Density(resident[i]) == Density(resident[j]) && resident[i].lastUsedTick <= resident[j].lastUsedTick)
  }

  // With no cost known the cost-aware policy evicts what was used longest ago, and otherwise what earns
  // least for the bytes it holds, then what was used longest ago.
  lemma CostAwareChooses(resident: seq<EntryFacts>)
    requires resident != []
    ensures CostAwareVictim(resident).Some?
    ensures var i := CostAwareVictim(resident).value;
            if forall j | 0 <= j < |resident| :: resident[j].costMillis.None? then OldestUse(resident, i)
            else CheapestHeld(resident, i)
  {
    if !(forall j | 0 <= j < |resident| :: resident[j].costMillis.None?) {
      var before := (a: EntryFacts, b: EntryFacts) =>
        Density(a) < Density(b) || (Density(a) == Density(b) && a.lastUsedTick < b.lastUsedTick);
      forall j | 0 <= j < |resident|
        ensures CostAwareVictim(resident).Some? && !before(resident[j], resident[CostAwareVictim(resident).value])
      {
        LeastIs(resident, SomeFacts, before, j);
      }
    }
  }

  // ---- scan-resistant ----

  // Hits for the ticks since an entry was stored, at the time of the last use of any.
  function Age(resident: seq<EntryFacts>, i: nat): nat
    requires i < |resident|
  {
    SatAdd(SatSub(Now(resident), resident[i].storedTick), 1)
  }

  lemma {:induction false} NowIsLatest(resident: seq<EntryFacts>)
    ensures forall i | 0 <= i < |resident| :: resident[i].lastUsedTick <= Now(resident)
    ensures resident != [] ==> exists i :: 0 <= i < |resident| && resident[i].lastUsedTick == Now(resident)
  {
    if resident != [] {
      var n := |resident| - 1;
      NowIsLatest(resident[..n]);
      assert forall i | 0 <= i < n :: resident[..n][i] == resident[i];
      if Now(resident) != resident[n].lastUsedTick && n > 0 {
        var i :| 0 <= i < n && resident[..n][i].lastUsedTick == Now(resident[..n]);
        assert resident[i].lastUsedTick == Now(resident);
      }
    }
  }

  // Never served, and of those used longest ago.
  ghost predicate OldestProbationary(resident: seq<EntryFacts>, i: nat) {
    && i < |resident| && resident[i].hits == 0
    && forall j | 0 <= j < |resident| && resident[j].hits == 0 :: resident[i].lastUsedTick <= resident[j].lastUsedTick
  }

  // Served, and of those served least often for its age, then used longest ago.
  ghost predicate SlowestProtected(resident: seq<EntryFacts>, i: nat) {
    && i < |resident| && resident[i].hits > 0
    && forall j | 0 <= j < |resident| && resident[j].hits > 0 ::
         || resident[i].hits * Age(resident, j) < resident[j].hits * Age(resident, i)
         || (resident[i].hits * Age(resident, j) == resident[j].hits * Age(resident, i)
             && resident[i].lastUsedTick <= resident[j].lastUsedTick)
  }

  // The scan-resistant policy evicts a probationary entry while the protected ones hold no more than their
  // share and there is one, and otherwise a protected one.
  lemma ScanChooses(bound: CacheBound, percent: nat, resident: seq<EntryFacts>)
    requires percent <= 99
    ensures match ScanVictim(bound, percent, resident)
            case None => resident == []
            case Some(i) =>
              if !ProtectedOver(bound, percent, resident) && exists j :: 0 <= j < |resident| && resident[j].hits == 0
              then OldestProbationary(resident, i)
              else SlowestProtected(resident, i)
  {
    if resident != [] {
      ScanNamesVictim(bound, percent, resident);
    }
    var now := Now(resident);
    var older := (a: EntryFacts, b: EntryFacts) => a.lastUsedTick < b.lastUsedTick;
    var way := (a: EntryFacts, b: EntryFacts) => GivesWay(a, b, now);
    var probationary := (facts: EntryFacts) => !IsProtected(facts);
    forall j | 0 <= j < |resident| && resident[j].hits == 0
      ensures Least(resident, probationary, older).Some?
      ensures !older(resident[j], resident[Least(resident, probationary, older).value])
    {
      LeastIs(resident, probationary, older, j);
    }
    WayRanks(now);
    forall j | 0 <= j < |resident| && resident[j].hits > 0
      ensures Least(resident, IsProtected, way).Some?
      ensures !way(resident[j], resident[Least(resident, IsProtected, way).value])
    {
      LeastIs(resident, IsProtected, way, j);
    }
  }

  lemma WayRanks(now: nat)
    ensures Ranks((a: EntryFacts, b: EntryFacts) => GivesWay(a, b, now))
  {
    forall a, b, c | GivesWay(a, b, now) && !GivesWay(c, b, now) ensures !GivesWay(c, a, now) {
      GivesWayTransitive(a, b, c, now);
    }
  }

  // ---- a candidate at a full scan-resistant cache ----

  // A listing of the residents, and one of them that gives way first among the probationary.
  ghost predicate GivesWayFirst(s: CacheState, key: CacheKey) {
    && key in s.entries && s.entries[key].hits == 0
    && forall k | k in s.entries && s.entries[k].hits == 0 ::
         s.entries[key].lastUsedTick <= s.entries[k].lastUsedTick
  }

  ghost predicate Wanted(sketch: SketchState, s: CacheState, c: Candidate, key: CacheKey)
    requires key in s.entries && |sketch.counters| > 0
  {
    SatAdd(sketch.Estimate(c.key.request), 0) > SatAdd(sketch.Estimate(key.request), s.entries[key].hits)
  }

  lemma ContestListed(s: CacheState, bound: CacheBound, percent: nat, sketch: SketchState, c: Candidate,
                      keys: seq<CacheKey>) returns (key: CacheKey)
    requires percent <= 99 && |sketch.counters| > 0 && bound.maxBytes <= WORD_MAX
    requires ListedIn(keys, s.entries) && ProtectedWithin(s, bound, percent)
    requires exists k :: k in s.entries && s.entries[k].hits == 0
    ensures GivesWayFirst(s, key)
    ensures ScanContest(bound, percent, sketch, s.CandidateFacts(c), s.FactsOf(keys)) <==> Wanted(sketch, s, c, key)
  {
    var facts := s.FactsOf(keys);
    var i := ProbationaryVictim(s, bound, percent, keys);
    key := keys[i];
    ContestIs(bound, percent, sketch, s.CandidateFacts(c), facts, i);
  }

  lemma ProbationaryVictim(s: CacheState, bound: CacheBound, percent: nat, keys: seq<CacheKey>) returns (i: nat)
    requires percent <= 99 && bound.maxBytes <= WORD_MAX && ListedIn(keys, s.entries)
             && ProtectedWithin(s, bound, percent)
    requires exists k :: k in s.entries && s.entries[k].hits == 0
    ensures i < |keys| && ScanVictim(bound, percent, s.FactsOf(keys)) == Some(i) && GivesWayFirst(s, keys[i])
    ensures s.FactsOf(keys)[i] == s.entries[keys[i]].Facts(keys[i].request)
  {
    var facts := s.FactsOf(keys);
    ShareStays(s, bound, percent, keys);
    ScanChooses(bound, percent, facts);
    var k0 :| k0 in s.entries && s.entries[k0].hits == 0;
    var j0 := ListedAt(s, keys, k0);
    assert facts[j0].hits == 0;
    i := ScanVictim(bound, percent, facts).value;
    OldestListed(s, keys, i);
  }

  lemma ContestIs(bound: CacheBound, percent: nat, sketch: SketchState, candidate: EntryFacts, facts: seq<EntryFacts>,
                  i: nat)
    requires percent <= 99 && |sketch.counters| > 0 && i < |facts|
    requires ScanVictim(bound, percent, facts) == Some(i) && facts[i].hits == 0
    ensures ScanContest(bound, percent, sketch, candidate, facts)
            <==> Frequency(sketch, candidate) > Frequency(sketch, facts[i])
  {
  }

  lemma ListedAt(s: CacheState, keys: seq<CacheKey>, k: CacheKey) returns (j: nat)
    requires ListedIn(keys, s.entries) && k in s.entries
    ensures j < |keys| && keys[j] == k && s.FactsOf(keys)[j] == s.entries[k].Facts(k.request)
  {
    j :| 0 <= j < |keys| && keys[j] == k;
  }

  lemma OldestListed(s: CacheState, keys: seq<CacheKey>, i: nat)
    requires ListedIn(keys, s.entries) && OldestProbationary(s.FactsOf(keys), i)
    ensures GivesWayFirst(s, keys[i])
  {
    assert s.FactsOf(keys)[i] == s.entries[keys[i]].Facts(keys[i].request);
    forall k | k in s.entries && s.entries[k].hits == 0
      ensures s.entries[keys[i]].lastUsedTick <= s.entries[k].lastUsedTick
    {
      var j := ListedAt(s, keys, k);
    }
  }

  // A candidate is let in unconditionally where a protected entry gives way or nothing does, and otherwise
  // when its request has been wanted oftener than that of the probationary entry that gives way.
  lemma ScanContestIff(bound: CacheBound, percent: nat, sketch: SketchState, candidate: EntryFacts,
                       resident: seq<EntryFacts>)
    requires percent <= 99 && |sketch.counters| > 0
    ensures var probationary := !ProtectedOver(bound, percent, resident)
                                && exists j :: 0 <= j < |resident| && resident[j].hits == 0;
            && (!probationary ==> ScanContest(bound, percent, sketch, candidate, resident))
            && (probationary ==>
                  exists i: nat ::
                              && OldestProbationary(resident, i)
                              && (ScanContest(bound, percent, sketch, candidate, resident)
                                  <==> SatAdd(sketch.Estimate(candidate.request), candidate.hits)
                                       > SatAdd(sketch.Estimate(resident[i].request), 0)))
  {
    ScanChooses(bound, percent, resident);
    if resident != [] {
      ScanNamesVictim(bound, percent, resident);
      var i := ScanVictim(bound, percent, resident).value;
      if resident[i].hits == 0 {
        ContestIs(bound, percent, sketch, candidate, resident, i);
      }
    }
  }

  // The policy reads the protected entries off the residents, whatever their order: they are over their
  // share exactly when the segment is.
  lemma ProtectedOverIff(s: CacheState, bound: CacheBound, percent: nat, keys: seq<CacheKey>)
    requires percent <= 99 && ListedIn(keys, s.entries) && bound.maxBytes <= WORD_MAX
    ensures ProtectedOver(bound, percent, s.FactsOf(keys))
            <==> |Protected(s.entries)| > bound.maxEntries * percent / 100
                 || SatAdd(0, SumBytes(Protected(s.entries))) > bound.maxBytes * percent / 100
  {
    ProtectedListed(s, keys);
  }

  // Within their share, the protected entries are not over it, whatever the listing.
  lemma ShareStays(s: CacheState, bound: CacheBound, percent: nat, keys: seq<CacheKey>)
    requires percent <= 99 && ListedIn(keys, s.entries) && ProtectedWithin(s, bound, percent)
             && bound.maxBytes <= WORD_MAX
    ensures !ProtectedOver(bound, percent, s.FactsOf(keys))
  {
    ProtectedListed(s, keys);
  }

  // A newcomer that fits the bound alone but not beside the residents is stored only when its request has
  // been wanted oftener than that of a probationary entry that gives way first, and declined only when it
  // has not.
  lemma ScanAdmits(s: CacheState, bound: CacheBound, percent: nat, sketch: SketchState, c: Candidate,
                   outcome: Result<(), Declined>, end: CacheState)
    requires percent <= 99 && |sketch.counters| > 0 && bound.maxBytes <= WORD_MAX
    requires ProtectedWithin(s, bound, percent) && exists k :: k in s.entries && s.entries[k].hits == 0
    requires s.Stores(ScanResistant(bound, percent, sketch), c, outcome, end)
    requires c.key !in s.entries && s.Filed(c).Over(bound) && BodySize(c.representation.body) <= bound.maxBytes
    requires !c.representation.body.Once? && !s.CutSince(c.representation.threads, c.taken)
    ensures outcome.Ok? ==> exists key :: GivesWayFirst(s, key) && Wanted(sketch, s, c, key)
    ensures outcome.Err? ==> exists key :: GivesWayFirst(s, key) && !Wanted(sketch, s, c, key)
  {
    var ticked, policy := s.Ticked(), ScanResistant(bound, percent, sketch);
    FiledOver(s, bound, c);
    assert ticked.Contested(policy, c) && ticked.ContestAnswers(policy, c, outcome.Ok?);
    var keys :| Lists(keys, ticked.entries.Keys)
                && policy.contest(ticked.CandidateFacts(c), ticked.FactsOf(keys)) == outcome.Ok?;
    assert forall k | k in keys :: k in ticked.entries.Keys;
    var key := ContestListed(ticked, bound, percent, sketch, c, keys);
    assert GivesWayFirst(s, key) && (Wanted(sketch, s, c, key) <==> outcome.Ok?);
  }

  lemma FiledOver(s: CacheState, bound: CacheBound, c: Candidate)
    requires c.key !in s.entries && s.Filed(c).Over(bound)
    ensures |s.entries| >= bound.maxEntries || SatAdd(s.bytes, BodySize(c.representation.body)) > bound.maxBytes
  {
    assert s.Filed(c).entries.Keys == s.entries.Keys + {c.key};
    assert |s.Filed(c).entries| == |s.entries| + 1;
  }

  // ---- partitions ----

  // Where a kept resident stands is where it was picked from.
  lemma {:induction false} IndicesPick(resident: seq<EntryFacts>, keep: EntryFacts -> bool, j: nat)
    requires j < |Indices(resident, keep)|
    ensures resident[Indices(resident, keep)[j]] == Picked(resident, keep)[j]
  {
    var n := |resident| - 1;
    if j < |Indices(resident[..n], keep)| {
      IndicesPick(resident[..n], keep, j);
    }
  }

  // The entry evicted is the one its own partition's policy chooses among that partition's residents.
  lemma PartitionVictimIs(p: Partitions, resident: seq<EntryFacts>)
    requires AllNameVictims(p) && p.Furthest(resident, |p.given| + 1).Some?
    ensures var partition := p.Furthest(resident, |p.given| + 1).value;
            var members := Picked(resident, p.Belongs(partition));
            && p.Victim(resident).Some? && p.Victim(resident).value < |resident|
            && p.Policy(partition).victim(members).Some? && p.Policy(partition).victim(members).value < |members|
            && resident[p.Victim(resident).value] == members[p.Policy(partition).victim(members).value]
  {
    var partition := p.Furthest(resident, |p.given| + 1).value;
    var members := Picked(resident, p.Belongs(partition));
    VictimIsMember(p, resident, partition);
    assert members != [] && NamesVictims(p.Policy(partition));
    IndicesPick(resident, p.Belongs(partition), p.Policy(partition).victim(members).value);
  }

  // A partition takes a newcomer without a contest exactly when it stays within its bound with it.
  lemma PartitionContestIff(p: Partitions, s: CacheState, keys: seq<CacheKey>, c: Candidate)
    requires ListedIn(keys, s.entries) && c.key !in s.entries
    ensures var partition := p.PartitionOf(c.target);
            p.Contest(s.CandidateFacts(c), s.FactsOf(keys))
            <==> PartWithin(p, s.Filed(c).entries, partition)
                 || p.Policy(partition).contest(s.CandidateFacts(c), Picked(s.FactsOf(keys), p.Belongs(partition)))
  {
    var partition := p.PartitionOf(c.target);
    var members := Picked(s.FactsOf(keys), p.Belongs(partition));
    MembersListed(p, s, keys, partition);
    SatFromIs(BodySize(c.representation.body), members);
    FiledFits(p, s, c, members);
  }

  lemma MembersListed(p: Partitions, s: CacheState, keys: seq<CacheKey>, partition: nat)
    requires ListedIn(keys, s.entries)
    ensures var members, part := Picked(s.FactsOf(keys), p.Belongs(partition)), PartOf(p, s.entries, partition);
            |members| == |part| && SatBytes(members) == SatAdd(0, SumBytes(part))
  {
    SegmentListed(s, keys, p.Belongs(partition));
    assert Segment(s.entries, p.Belongs(partition)) == PartOf(p, s.entries, partition);
  }

  lemma PartWith(p: Partitions, entries: map<CacheKey, Slot>, key: CacheKey, slot: Slot)
    requires key !in entries
    ensures var partition := p.PartitionOf(slot.target);
            var before, after := PartOf(p, entries, partition), PartOf(p, entries[key := slot], partition);
            |after| == |before| + 1 && SumBytes(after) == SumBytes(before) + slot.Bytes()
  {
    var partition := p.PartitionOf(slot.target);
    WhereWithout(entries[key := slot], InPart(p, partition), key);
    assert entries[key := slot] - {key} == entries;
  }

  lemma FiledPart(p: Partitions, s: CacheState, c: Candidate)
    requires c.key !in s.entries
    ensures var partition := p.PartitionOf(c.target);
            var before, after := PartOf(p, s.entries, partition), PartOf(p, s.Filed(c).entries, partition);
            |after| == |before| + 1 && SumBytes(after) == SumBytes(before) + BodySize(c.representation.body)
  {
    PartWith(p, s.entries, c.key, s.Entry(c));
  }

  lemma {:induction false} SatFromIs(start: nat, resident: seq<EntryFacts>)
    requires start <= WORD_MAX
    ensures SatFrom(start, resident) == SatAdd(start, SatBytes(resident))
    decreases |resident|
  {
    if resident != [] {
      SatFromIs(start, resident[..|resident| - 1]);
    }
  }

  lemma FiledFits(p: Partitions, s: CacheState, c: Candidate, members: seq<EntryFacts>)
    requires c.key !in s.entries
    requires var part := PartOf(p, s.entries, p.PartitionOf(c.target));
             |members| == |part| && SatBytes(members) == SatAdd(0, SumBytes(part))
    requires SatFrom(BodySize(c.representation.body), members)
          == SatAdd(BodySize(c.representation.body), SatBytes(members))
    ensures var bound := p.Policy(p.PartitionOf(c.target)).capacity;
            PartWithin(p, s.Filed(c).entries, p.PartitionOf(c.target))
            <==> |members| < bound.maxEntries && SatFrom(BodySize(c.representation.body), members) <= bound.maxBytes
  {
    FiledPart(p, s, c);
  }

  // ---- the policies a table names ----

  // Which policy a name and a share build, and over which bound.
  lemma NamedPolicyIff(key: Key, name: string, bound: CacheBound, percent: Option<nat>, b: Built)
    ensures NamedPolicy(key, name, bound, percent) == Ok(b)
            <==> b.bound == bound
                 && match b.kind
                    case LruKind => name == "lru" && percent.None?
                    case FifoKind => name == "fifo" && percent.None?
                    case CostAwareKind => name == "cost-aware" && percent.None?
                    case ScanKind(p) =>
                      name == "scan-resistant" && 1 <= p <= 99 && p == GetOr(percent, 80)
  {
    assert |"lru"| == 3 && |"fifo"| == 4 && |"cost-aware"| == 10 && |"scan-resistant"| == 14;
  }

  // What a built policy evicts of some residents.
  ghost predicate Chosen(b: Built, resident: seq<EntryFacts>, i: nat) {
    match b.kind
    case LruKind => OldestUse(resident, i)
    case FifoKind => OldestStored(resident, i)
    case CostAwareKind =>
      if forall j | 0 <= j < |resident| :: resident[j].costMillis.None? then OldestUse(resident, i)
      else CheapestHeld(resident, i)
    case ScanKind(percent) =>
      if percent <= 99 && !ProtectedOver(b.bound, percent, resident)
         && exists j :: 0 <= j < |resident| && resident[j].hits == 0
      then OldestProbationary(resident, i)
      else SlowestProtected(resident, i)
  }

  lemma BuiltChooses(b: Built, sketch: SketchState, resident: seq<EntryFacts>)
    requires |sketch.counters| > 0 && WellBuilt(b) && resident != []
    ensures AsCachePolicy(b, sketch).victim(resident).Some?
    ensures Chosen(b, resident, AsCachePolicy(b, sketch).victim(resident).value)
  {
    match b.kind
    case ScanKind(percent) =>
      ScanNamesVictim(b.bound, percent, resident);
      ScanChooses(b.bound, percent, resident);
    case CostAwareKind => CostAwareChooses(resident);
    case _ =>
  }

  // So under an accepted table without partitions the entry evicted is the one its policy's name says, and
  // what is admitted is what fits the whole bound.
  lemma ConfiguredChooses(c: CacheConfig, sketch: SketchState, resident: seq<EntryFacts>)
    requires Acceptable(c) && c.partitions == [] && |sketch.counters| > 0 && AllWellBuilt(Described(c))
             && resident != []
    ensures var policy := Installed(Described(c), sketch);
            && policy.victim(resident).Some?
            && var i := policy.victim(resident).value;
               && (PolicyName(c) == "lru" ==> OldestUse(resident, i))
               && (PolicyName(c) == "fifo" ==> OldestStored(resident, i))
               && (PolicyName(c) == "cost-aware" ==> Chosen(Built(CostAwareKind, Total(c)), resident, i))
               && (PolicyName(c) == "scan-resistant" ==>
                     Chosen(Built(ScanKind(GetOr(c.protectedPercent, 80)), Total(c)), resident, i))
               && forall facts :: policy.admit(facts) <==> facts.bytes <= Total(c).maxBytes
  {
    var b := Described(c).rest;
    NamedPolicyIff(Whole, PolicyName(c), Total(c), c.protectedPercent, b);
    BuiltChooses(b, sketch, resident);
    assert |"lru"| == 3 && |"fifo"| == 4 && |"cost-aware"| == 10 && |"scan-resistant"| == 14;
  }

  // Under one with partitions, each partition's policy is the one its own name, or the table's, says.
  lemma PartitionConfigured(c: CacheConfig, sketch: SketchState, i: nat)
    requires Acceptable(c) && i < |c.partitions| && |sketch.counters| > 0 && AllWellBuilt(Described(c))
    ensures NamedPolicy(Of(i), GetOr(c.partitions[i].policy, PolicyName(c)),
                        CacheBound(PartitionEntries(Total(c), c.partitions[i]), c.partitions[i].maxBytes),
                        PartitionPercent(c, c.partitions[i]))
         == Ok(Described(c).given[i].1)
    ensures AsPartitions(Described(c), sketch).given[i]
         == Partition(c.partitions[i].prefix, AsCachePolicy(Described(c).given[i].1, sketch))
    ensures forall facts :: AsPartitions(Described(c), sketch).given[i].policy.admit(facts)
                            <==> facts.bytes <= c.partitions[i].maxBytes
    ensures var name := GetOr(c.partitions[i].policy, PolicyName(c));
            match Described(c).given[i].1.kind
            case LruKind => name == "lru"
            case FifoKind => name == "fifo"
            case CostAwareKind => name == "cost-aware"
            case ScanKind(percent) =>
              name == "scan-resistant"
                && percent == GetOr(c.partitions[i].protectedPercent, GetOr(c.protectedPercent, 80))
  {
    assert PartitionValid(c, i);
    var built := Described(c).given[i].1;
    NamedPolicyIff(Of(i), GetOr(c.partitions[i].policy, PolicyName(c)),
                   CacheBound(PartitionEntries(Total(c), c.partitions[i]), c.partitions[i].maxBytes),
                   PartitionPercent(c, c.partitions[i]), built);
  }

  // A name is admitted by the partition it belongs to.
  lemma PartitionedAdmits(p: Partitions, facts: EntryFacts)
    ensures p.AsPolicy().admit(facts) <==> p.Policy(p.PartitionOf(facts.target)).admit(facts)
  {
  }

  // ---- the sketch's counts ----

  function TimesIn(history: seq<RequestId>, request: RequestId): nat {
    if history == [] then 0
    else TimesIn(history[..|history| - 1], request) + if history[|history| - 1] == request then 1 else 0
  }

  // Before a sample is complete a count of one's own is how often it was asked for, up to fifteen; when it
  // is complete, half of that.
  lemma {:induction false} AgedIsCount(history: seq<RequestId>, request: RequestId, sample: nat)
    requires |history| <= sample && sample > 0
    ensures SinceHalving(|history|, sample) == if |history| == sample then 0 else |history|
    ensures var count := if TimesIn(history, request) <= 15 then TimesIn(history, request) else 15;
            Aged(history, request, sample) == if |history| == sample then count / 2 else count
    decreases |history|
  {
    if history != [] {
      AgedIsCount(history[..|history| - 1], request, sample);
    }
  }

  // A sketch is sixty-four counters a row or four to an entry, whichever is more, as the next power of
  // two, and halves every ten requests to an entry.
  predicate PowerOfTwo(n: nat) { n == 1 || (n > 1 && n % 2 == 0 && PowerOfTwo(n / 2)) }

  lemma {:induction false} NextPowerIs(n: nat, power: nat)
    requires PowerOfTwo(power) && power > 0 && (power == 1 || power < 2 * n)
    ensures var p := NextPowerOfTwo(n, power); PowerOfTwo(p) && p >= n && (p == 1 || p < 2 * n || p == power)
    decreases n - power
  {
    if power < n {
      assert 2 * power / 2 == power;
      NextPowerIs(n, 2 * power);
    }
  }

  lemma WidthIs(maxEntries: nat)
    ensures PowerOfTwo(Width(maxEntries))
    ensures 16 <= maxEntries <= 0x10_0000 ==> 4 * maxEntries <= Width(maxEntries) < 8 * maxEntries
    ensures maxEntries < 16 ==> 64 <= Width(maxEntries) < 128
    ensures maxEntries > 0x10_0000 ==> 0x40_0000 <= Width(maxEntries) < 0x80_0000
    ensures 10 * maxEntries <= WORD_MAX ==> Sample(maxEntries) == if maxEntries <= 6 then 64 else 10 * maxEntries
  {
    var wanted := Clamp(SatMul(maxEntries, 4), 64, 0x40_0000);
    NextPowerIs(wanted, 1);
  }
}
