// The scan-resistant policy (crates/ikigai-core/src/cache.rs): two segments read off the
// entries, and a frequency contest at the door.

module CacheScan {
  import opened Wrappers
  import opened Words
  import opened CacheEntries
  import opened Cache
  import opened CacheAccounting
  import opened Sketches

  predicate IsProtected(facts: EntryFacts) { facts.hits > 0 }

  // The protected residents' facts.
  function ProtectedOf(resident: seq<EntryFacts>): seq<EntryFacts> {
    Picked(resident, IsProtected)
  }

  // A percentage of a bound, never over it.
  function Share(of: nat, percent: nat): (share: nat)
    requires percent <= 99
    ensures share <= of && 100 * share <= of * percent < 100 * share + 100
  {
    assert of * percent <= of * 100;
    of * percent / 100
  }

  predicate ProtectedOver(bound: CacheBound, percent: nat, resident: seq<EntryFacts>)
    requires percent <= 99
  {
    || |ProtectedOf(resident)| > Share(bound.maxEntries, percent)
    || SatBytes(ProtectedOf(resident)) > Share(bound.maxBytes, percent)
  }

  // Hits per tick resident, compared without division.
  datatype HitRate = HitRate(hits: nat, ticks: nat) {
    predicate Under(other: HitRate) {
      hits * other.ticks < other.hits * ticks
    }
  }

  lemma UnderTransitive(a: HitRate, b: HitRate, c: HitRate)
    requires a.ticks > 0 && b.ticks > 0 && c.ticks > 0
    requires !b.Under(a) && !c.Under(b)
    ensures !c.Under(a)
  {
    CrossTransitive(a.hits, a.ticks, b.hits, b.ticks, c.hits, c.ticks);
  }

  // a/p <= b/q <= c/r, multiplied out and cancelled.
  lemma CrossTransitive(a: nat, p: nat, b: nat, q: nat, c: nat, r: nat)
    requires q > 0 && a * q <= b * p && b * r <= c * q
    ensures a * r <= c * p
  {
    calc {
      (a * r) * q;
      == { Shuffle(a, r, q); }
      (a * q) * r;
      <= { MulMono(a * q, b * p, r); }
      (b * p) * r;
      == { Shuffle(b, p, r); }
      (b * r) * p;
      <= { MulMono(b * r, c * q, p); }
      (c * q) * p;
      == { Shuffle(c, q, p); }
      (c * p) * q;
    }
    if c * p < a * r {
      MulMono(c * p + 1, a * r, q);
    }
  }

  lemma Shuffle(x: nat, y: nat, z: nat)
    ensures (x * y) * z == (x * z) * y
  {
  }

  lemma MulMono(x: nat, y: nat, k: nat)
    requires x <= y
    ensures x * k <= y * k
  {
  }

  function Now(resident: seq<EntryFacts>): nat {
    if resident == [] then 0
    else
      var before := Now(resident[..|resident| - 1]);
      var last := resident[|resident| - 1].lastUsedTick;
      if last > before then last else before
  }

  function RateAt(facts: EntryFacts, now: nat): (rate: HitRate)
    ensures rate.ticks > 0
  {
    HitRate(facts.hits, SatAdd(SatSub(now, facts.storedTick), 1))
  }

  // Which of two protected entries gives way first: the lower rate, then the older use.
  predicate GivesWay(a: EntryFacts, b: EntryFacts, now: nat) {
    || RateAt(a, now).Under(RateAt(b, now))
    || (!RateAt(b, now).Under(RateAt(a, now)) && a.lastUsedTick < b.lastUsedTick)
  }

  // The first of the least among the residents of one segment, under a strict comparison.
  function Least(resident: seq<EntryFacts>, keep: EntryFacts -> bool, before: (EntryFacts, EntryFacts) -> bool)
    : (least: Option<nat>)
    ensures least.Some? ==> least.value < |resident| && keep(resident[least.value])
    ensures least.None? <==> forall i | 0 <= i < |resident| :: !keep(resident[i])
  {
    if resident == [] then None
    else
      var n := |resident| - 1;
      assert forall i | 0 <= i < n :: resident[..n][i] == resident[i];
      var rest := Least(resident[..n], keep, before);
      if !keep(resident[n]) then rest
      else if rest.None? || before(resident[n], resident[rest.value]) then Some(n)
      else rest
  }

  function ScanVictim(bound: CacheBound, percent: nat, resident: seq<EntryFacts>): Option<nat>
    requires percent <= 99
  {
    var probationary := Least(resident, (facts: EntryFacts) => !IsProtected(facts),
                              (a: EntryFacts, b: EntryFacts) => a.lastUsedTick < b.lastUsedTick);
    if probationary.Some? && !ProtectedOver(bound, percent, resident) then probationary
    else
      var now := Now(resident);
      Least(resident, IsProtected,
            (a: EntryFacts, b: EntryFacts) => GivesWay(a, b, now))
  }

  // How often a request has been wanted: computed, as the sketch counts, and served since.
  function Frequency(sketch: SketchState, facts: EntryFacts): nat
    requires |sketch.counters| > 0
  {
    SatAdd(sketch.Estimate(facts.request), facts.hits)
  }

  function ScanContest(bound: CacheBound, percent: nat, sketch: SketchState, candidate: EntryFacts,
                       resident: seq<EntryFacts>): bool
    requires percent <= 99 && |sketch.counters| > 0
  {
    match ScanVictim(bound, percent, resident)
    case None => true
    case Some(index) =>
      index >= |resident| || resident[index].hits > 0
      || Frequency(sketch, candidate) > Frequency(sketch, resident[index])
  }

  // The policy while one store holds the lock: `sketch` has already counted the candidate,
  // which admission does first, admitted or not.
  function ScanResistant(bound: CacheBound, percent: nat, sketch: SketchState): CachePolicy
    requires percent <= 99 && |sketch.counters| > 0
  {
    CachePolicy(bound,
                (facts: EntryFacts) => facts.bytes <= bound.maxBytes,
                resident => ScanVictim(bound, percent, resident),
                (candidate, resident) => ScanContest(bound, percent, sketch, candidate, resident),
                false,
                resident => false)
  }

  // ---- which protected entry gives way ----

  // The comparison is an order, so the protected entry chosen is one no other is under.
  lemma {:induction false} LeastProtected(resident: seq<EntryFacts>, now: nat, i: nat)
    requires i < |resident| && IsProtected(resident[i])
    ensures var least := Least(resident, IsProtected,
                               (a: EntryFacts, b: EntryFacts) => GivesWay(a, b, now));
            least.Some? && !GivesWay(resident[i], resident[least.value], now)
  {
    var n := |resident| - 1;
    var keep := IsProtected;
    var before := (a: EntryFacts, b: EntryFacts) => GivesWay(a, b, now);
    var rest := Least(resident[..n], keep, before);
    if i < n {
      LeastProtected(resident[..n], now, i);
      if IsProtected(resident[n]) && before(resident[n], resident[rest.value]) {
        GivesWayTransitive(resident[n], resident[rest.value], resident[i], now);
      }
    }
  }

  lemma GivesWayTransitive(a: EntryFacts, b: EntryFacts, c: EntryFacts, now: nat)
    requires GivesWay(a, b, now) && !GivesWay(c, b, now)
    ensures !GivesWay(c, a, now)
  {
    var ra, rb, rc := RateAt(a, now), RateAt(b, now), RateAt(c, now);
    UnderTransitive(ra, rb, rc);
    if !ra.Under(rc) {
      UnderTransitive(rc, ra, rb);
      UnderTransitive(rb, rc, ra);
    }
  }

  // ---- the protected segment ----

  ghost function Protected(entries: map<CacheKey, Slot>): map<CacheKey, Slot> {
    map k | k in entries && entries[k].hits > 0 :: entries[k]
  }

  // What the policy reads of the protected segment, in any order, is the segment.
  lemma ProtectedListed(s: CacheState, keys: seq<CacheKey>)
    requires ListedIn(keys, s.entries)
    ensures |ProtectedOf(s.FactsOf(keys))| == |Protected(s.entries)|
    ensures SatBytes(ProtectedOf(s.FactsOf(keys))) == SatAdd(0, SumBytes(Protected(s.entries)))
  {
    SegmentListed(s, keys, IsProtected);
    assert Segment(s.entries, IsProtected) == Protected(s.entries);
  }

  ghost predicate ProtectedWithin(s: CacheState, bound: CacheBound, percent: nat)
    requires percent <= 99
  {
    && |Protected(s.entries)| <= Share(bound.maxEntries, percent)
    && SumBytes(Protected(s.entries)) <= Share(bound.maxBytes, percent)
  }

  lemma AllProtected(s: CacheState, keys: seq<CacheKey>)
    requires ListedIn(keys, s.entries)
    ensures (forall i | 0 <= i < |keys| :: IsProtected(s.FactsOf(keys)[i])) ==> Protected(s.entries) == s.entries
  {
    forall k | k in s.entries
      ensures (forall i | 0 <= i < |keys| :: IsProtected(s.FactsOf(keys)[i])) ==> s.entries[k].hits > 0
    {
      var i :| 0 <= i < |keys| && keys[i] == k;
      assert IsProtected(s.FactsOf(keys)[i]) <==> s.entries[k].hits > 0;
    }
  }

  // With the protected segment within its share, an over-full cache always names a
  // probationary entry: the protected entries alone cannot be over the bound.
  lemma ScanChoosesProbationary(s: CacheState, bound: CacheBound, percent: nat, sketch: SketchState,
                                keys: seq<CacheKey>)
    requires percent <= 99 && |sketch.counters| > 0 && bound.maxBytes <= WORD_MAX
    requires Accounted(s) && ProtectedWithin(s, bound, percent)
    requires ListedIn(keys, s.entries)
    ensures var chosen := s.Choice(ScanResistant(bound, percent, sketch), keys);
            && (chosen.Some? <==> s.Over(bound))
            && (chosen.Some? ==> chosen.value in s.entries && s.entries[chosen.value].hits == 0)
  {
    var facts := s.FactsOf(keys);
    ProtectedListed(s, keys);
    if s.Over(bound) {
      AllProtected(s, keys);
    }
  }

  lemma ProtectedAfterEvict(s: CacheState, key: CacheKey)
    requires key in s.entries && s.entries[key].hits == 0
    ensures Protected(s.Evict(key).entries) == Protected(s.entries)
  {
  }

  lemma {:induction false} ScanEnforces(s: CacheState, bound: CacheBound, percent: nat, sketch: SketchState,
                                        end: CacheState)
    requires percent <= 99 && |sketch.counters| > 0 && bound.maxBytes <= WORD_MAX
    requires Accounted(s) && ProtectedWithin(s, bound, percent)
    requires s.Enforced(ScanResistant(bound, percent, sketch), end)
    ensures Accounted(end) && !end.Over(bound) && Protected(end.entries) == Protected(s.entries)
    decreases |s.entries|
  {
    var policy := ScanResistant(bound, percent, sketch);
    var keys :| Lists(keys, s.entries.Keys) && s.EnforcedBy(policy, keys, end);
    ScanChoosesProbationary(s, bound, percent, sketch, keys);
    var chosen := s.Choice(policy, keys);
    if chosen.Some? {
      Shrinks(s.entries, chosen.value);
      EvictKeepsAccount(s, chosen.value);
      ProtectedAfterEvict(s, chosen.value);
      ScanEnforces(s.Evict(chosen.value), bound, percent, sketch, end);
    }
  }

  // ---- runs ----

  // The state a scan finds: exact total, within both bounds, protected within its share.
  ghost predicate ScanReady(s: CacheState, bound: CacheBound, percent: nat)
    requires percent <= 99
  {
    Accounted(s) && !s.Over(bound) && ProtectedWithin(s, bound, percent)
  }

  lemma ScanStores(s: CacheState, bound: CacheBound, percent: nat, sketch: SketchState, c: Candidate,
                   outcome: Result<(), Declined>, end: CacheState)
    requires percent <= 99 && |sketch.counters| > 0 && bound.maxBytes + bound.maxBytes <= WORD_MAX
    requires ScanReady(s, bound, percent) && c.key !in Protected(s.entries)
    requires s.Stores(ScanResistant(bound, percent, sketch), c, outcome, end)
    ensures ScanReady(end, bound, percent) && Protected(end.entries) == Protected(s.entries)
  {
    if outcome.Ok? {
      var policy := ScanResistant(bound, percent, sketch);
      var ticked := s.Ticked();
      var kept: CacheState :| ticked.Filed(c).Enforced(policy, kept) && end == kept.Sweep(bound.maxEntries);
      assert policy.admit(ticked.CandidateFacts(c));
      ScanFiled(ticked, bound, percent, sketch, c, kept);
      SweepKeepsEntries(kept, bound.maxEntries);
    }
  }

  lemma ScanFiled(s: CacheState, bound: CacheBound, percent: nat, sketch: SketchState, c: Candidate, kept: CacheState)
    requires percent <= 99 && |sketch.counters| > 0 && bound.maxBytes + bound.maxBytes <= WORD_MAX
    requires ScanReady(s, bound, percent) && c.key !in Protected(s.entries)
             && BodySize(c.representation.body) <= bound.maxBytes
    requires s.Filed(c).Enforced(ScanResistant(bound, percent, sketch), kept)
    ensures ScanReady(kept, bound, percent) && Protected(kept.entries) == Protected(s.entries)
  {
    ScanFiles(s, bound, c);
    ScanEnforces(s.Filed(c), bound, percent, sketch, kept);
  }

  lemma ScanFiles(s: CacheState, bound: CacheBound, c: Candidate)
    requires Accounted(s) && !s.Over(bound) && bound.maxBytes + bound.maxBytes <= WORD_MAX
    requires BodySize(c.representation.body) <= bound.maxBytes && c.key !in Protected(s.entries)
    ensures Accounted(s.Filed(c)) && Protected(s.Filed(c).entries) == Protected(s.entries)
  {
    RestSum(s, c.key);
    FiledAccount(s, c);
    ProtectedUpdated(s.entries, c.key, s.Entry(c));
  }

  lemma ProtectedUpdated(entries: map<CacheKey, Slot>, key: CacheKey, slot: Slot)
    requires slot.hits == 0 && key !in Protected(entries)
    ensures Protected(entries[key := slot]) == Protected(entries)
  {
  }

  datatype ScanStep = ScanStep(c: Candidate, sketch: SketchState, outcome: Result<(), Declined>)

  ghost predicate IsScan(run: seq<CacheState>, steps: seq<ScanStep>, bound: CacheBound, percent: nat)
    requires percent <= 99
  {
    && |run| == |steps| + 1
    && forall i | 0 <= i < |steps| :: ScanStepAt(run, steps, bound, percent, i)
  }

  ghost predicate ScanStepAt(run: seq<CacheState>, steps: seq<ScanStep>, bound: CacheBound, percent: nat, i: nat)
    requires percent <= 99 && i < |steps| && |run| == |steps| + 1
  {
    && |steps[i].sketch.counters| > 0
    && run[i].Stores(ScanResistant(bound, percent, steps[i].sketch), steps[i].c, steps[i].outcome, run[i + 1])
  }

  lemma ShorterScan(run: seq<CacheState>, steps: seq<ScanStep>, bound: CacheBound, percent: nat)
    requires percent <= 99 && steps != [] && IsScan(run, steps, bound, percent)
    ensures IsScan(run[..|steps|], steps[..|steps| - 1], bound, percent)
  {
    var front, fewer := run[..|steps|], steps[..|steps| - 1];
    forall i | 0 <= i < |fewer| ensures ScanStepAt(front, fewer, bound, percent, i) {
      assert ScanStepAt(run, steps, bound, percent, i);
    }
  }

  // However long the scan and whatever the sketch has counted, stores under keys no protected
  // entry holds leave the protected entries exactly as they were.
  lemma {:induction false} ScansLeaveProtected(run: seq<CacheState>, steps: seq<ScanStep>, bound: CacheBound,
                                               percent: nat)
    requires percent <= 99 && bound.maxBytes + bound.maxBytes <= WORD_MAX
    requires IsScan(run, steps, bound, percent) && ScanReady(run[0], bound, percent)
    requires forall i | 0 <= i < |steps| :: steps[i].c.key !in Protected(run[0].entries)
    ensures Protected(run[|steps|].entries) == Protected(run[0].entries)
    ensures ScanReady(run[|steps|], bound, percent)
    decreases |steps|
  {
    if steps != [] {
      var n := |steps| - 1;
      ShorterScan(run, steps, bound, percent);
      ScansLeaveProtected(run[..n + 1], steps[..n], bound, percent);
      assert ScanStepAt(run, steps, bound, percent, n);
      ScanStores(run[n], bound, percent, steps[n].sketch, steps[n].c, steps[n].outcome, run[n + 1]);
    }
  }
}
