// Separate budgets per name prefix (crates/ikigai-core/src/cache.rs): each partition is held
// to its own bound and gives up only its own entries.

module CachePartitioned {
  import opened Wrappers
  import opened Words
  import opened CacheEntries
  import opened Cache
  import opened CacheAccounting
  import opened CacheLru

  datatype Partition = Partition(prefix: string, policy: CachePolicy)

  // The partitions in the order given, and the policy of every entry no prefix claims.
  datatype Partitions = Partitions(given: seq<Partition>, rest: CachePolicy) {

    function Policy(partition: nat): CachePolicy {
      if partition < |given| then given[partition].policy else rest
    }

    // The longest prefix `target` starts with among the first `n`, the last of equals.
    function LongestPrefix(target: string, n: nat): (best: Option<nat>)
      requires n <= |given|
      ensures best.Some? ==> best.value < n
    {
      if n == 0 then None
      else
        var before := LongestPrefix(target, n - 1);
        if given[n - 1].prefix <= target
           && (before.None? || |given[n - 1].prefix| >= |given[before.value].prefix|) then Some(n - 1)
        else before
    }

    // Which partition a name belongs to; the rest is numbered after the last.
    function PartitionOf(target: string): (partition: nat)
      ensures partition <= |given|
    {
      match LongestPrefix(target, |given|)
      case Some(partition) => partition
      case None => |given|
    }

    function Belongs(partition: nat): EntryFacts -> bool {
      (facts: EntryFacts) => PartitionOf(facts.target) == partition
    }

    // How far some facts are over a partition's bound, in bytes and entries.
    function Overflow(partition: nat, members: seq<EntryFacts>): Option<(nat, nat)> {
      var bound := Policy(partition).capacity;
      var bytes := SatBytes(members);
      if |members| > bound.maxEntries || bytes > bound.maxBytes
      then Some((SatSub(bytes, bound.maxBytes), SatSub(|members|, bound.maxEntries)))
      else None
    }

    // The partition furthest over its bound among the first `n`, the earliest of equals.
    function Furthest(resident: seq<EntryFacts>, n: nat): (furthest: Option<nat>)
      ensures furthest.Some? ==>
                furthest.value < n
                && Overflow(furthest.value, Picked(resident, Belongs(furthest.value))).Some?
      ensures furthest.None? ==>
                forall p | 0 <= p < n :: Overflow(p, Picked(resident, Belongs(p))).None?
    {
      if n == 0 then None
      else
        var before := Furthest(resident, n - 1);
        match Overflow(n - 1, Picked(resident, Belongs(n - 1)))
        case None => before
        case Some(over) =>
          if before.None? then Some(n - 1)
          else
            var best := Overflow(before.value, Picked(resident, Belongs(before.value))).value;
            if best.0 < over.0 || (best.0 == over.0 && best.1 < over.1) then Some(n - 1) else before
    }

    function Victim(resident: seq<EntryFacts>): Option<nat> {
      match Furthest(resident, |given| + 1)
      case None => None
      case Some(partition) =>
        match Policy(partition).victim(Picked(resident, Belongs(partition)))
        case None => None
        case Some(chosen) =>
          var indices := Indices(resident, Belongs(partition));
          if chosen < |indices| then Some(indices[chosen]) else None
    }

    function Contest(candidate: EntryFacts, resident: seq<EntryFacts>): bool {
      var partition := PartitionOf(candidate.target);
      var members := Picked(resident, Belongs(partition));
      var bound := Policy(partition).capacity;
      (|members| < bound.maxEntries && SatFrom(candidate.bytes, members) <= bound.maxBytes)
      || Policy(partition).contest(candidate, members)
    }

    predicate OverPartition(resident: seq<EntryFacts>) {
      Furthest(resident, |given| + 1).Some?
    }

    // The whole bound: the rest's, with each partition's added, saturating.
    function Capacity(n: nat): CacheBound
      requires n <= |given|
    {
      if n == 0 then rest.capacity
      else
        var total := Capacity(n - 1);
        var bound := given[n - 1].policy.capacity;
        CacheBound(SatAdd(total.maxEntries, bound.maxEntries), SatAdd(total.maxBytes, bound.maxBytes))
    }

    function AsPolicy(): CachePolicy {
      CachePolicy(Capacity(|given|),
                  (facts: EntryFacts) => Policy(PartitionOf(facts.target)).admit(facts),
                  resident => Victim(resident),
                  (candidate, resident) => Contest(candidate, resident),
                  true,
                  resident => OverPartition(resident))
    }

    // Add a partition; a prefix given twice keeps the first.
    function Add(partition: Partition): Partitions {
      if exists i | 0 <= i < |given| :: given[i].prefix == partition.prefix then this
      else Partitions(given + [partition], rest)
    }
  }

  lemma {:induction false} LongestAmong(p: Partitions, target: string, n: nat)
    requires n <= |p.given|
    ensures match p.LongestPrefix(target, n)
            case None => forall i | 0 <= i < n :: !(p.given[i].prefix <= target)
            case Some(best) =>
              && p.given[best].prefix <= target
              && forall i | 0 <= i < n && p.given[i].prefix <= target :: |p.given[i].prefix| <= |p.given[best].prefix|
  {
    if n > 0 {
      LongestAmong(p, target, n - 1);
    }
  }

  lemma PrefixesOfOne(a: string, b: string, whole: string)
    requires a <= whole && b <= whole
    ensures |a| == |b| ==> a == b
  {
  }

  // A name belongs to the longest prefix it starts with, and to the rest when it starts with
  // none; with distinct prefixes, in whatever order they were given.
  lemma PartitionIsLongest(p: Partitions, target: string)
    requires forall i, j | 0 <= i < j < |p.given| :: p.given[i].prefix != p.given[j].prefix
    ensures var partition := p.PartitionOf(target);
            && (partition == |p.given| <==> forall i | 0 <= i < |p.given| :: !(p.given[i].prefix <= target))
            && (partition < |p.given| ==>
                  && p.given[partition].prefix <= target
                  && forall i | 0 <= i < |p.given| && p.given[i].prefix <= target && i != partition ::
                       |p.given[i].prefix| < |p.given[partition].prefix|)
  {
    LongestAmong(p, target, |p.given|);
    var partition := p.PartitionOf(target);
    if partition < |p.given| {
      forall i | 0 <= i < |p.given| && p.given[i].prefix <= target && i != partition
        ensures |p.given[i].prefix| < |p.given[partition].prefix|
      {
        PrefixesOfOne(p.given[i].prefix, p.given[partition].prefix, target);
      }
    }
  }

  // A policy that always names a resident when there is one.
  ghost predicate NamesVictims(policy: CachePolicy) {
    forall resident :: resident != [] ==>
      policy.victim(resident).Some? && policy.victim(resident).value < |resident|
  }

  ghost predicate AllNameVictims(p: Partitions) {
    NamesVictims(p.rest) && forall i | 0 <= i < |p.given| :: NamesVictims(p.given[i].policy)
  }

  function SatFrom(start: nat, resident: seq<EntryFacts>): nat {
    if resident == [] then start
    else SatAdd(SatFrom(start, resident[..|resident| - 1]), resident[|resident| - 1].bytes)
  }

  // Where the residents a rule keeps stand among all of them.
  function Indices(resident: seq<EntryFacts>, keep: EntryFacts -> bool): (indices: seq<nat>)
    ensures |indices| == |Picked(resident, keep)|
    ensures forall j | 0 <= j < |indices| :: indices[j] < |resident| && keep(resident[indices[j]])
  {
    if resident == [] then []
    else
      var n := |resident| - 1;
      assert forall i | 0 <= i < n :: resident[..n][i] == resident[i];
      Indices(resident[..n], keep) + if keep(resident[n]) then [n] else []
  }

  // ---- partitions of the residents ----

  ghost function Where(entries: map<CacheKey, Slot>, keep: Slot -> bool): map<CacheKey, Slot> {
    map k | k in entries && keep(entries[k]) :: entries[k]
  }

  lemma WhereWithout(entries: map<CacheKey, Slot>, keep: Slot -> bool, key: CacheKey)
    requires key in entries
    ensures Where(entries - {key}, keep) == Where(entries, keep) - {key}
    ensures if keep(entries[key])
            then |Where(entries, keep)| == |Where(entries, keep) - {key}| + 1
                 && SumBytes(Where(entries, keep)) == SumBytes(Where(entries, keep) - {key}) + entries[key].Bytes()
            else Where(entries, keep) - {key} == Where(entries, keep)
  {
    var all := Where(entries, keep);
    if keep(entries[key]) {
      assert (all - {key}).Keys == all.Keys - {key};
      SumWithout(all, key);
    } else {
      assert all - {key} == all;
    }
    assert Where(entries - {key}, keep) == all - {key};
  }

  // What two disjoint rules keep adds up to what either keeps.
  lemma {:induction false} WhereSplit(entries: map<CacheKey, Slot>, a: Slot -> bool, b: Slot -> bool,
                                      either: Slot -> bool)
    requires forall slot :: !(a(slot) && b(slot)) && (either(slot) <==> a(slot) || b(slot))
    ensures |Where(entries, either)| == |Where(entries, a)| + |Where(entries, b)|
    ensures SumBytes(Where(entries, either)) == SumBytes(Where(entries, a)) + SumBytes(Where(entries, b))
    decreases |entries|
  {
    if entries == map[] {
      assert Where(entries, a) == Where(entries, b) == Where(entries, either) == map[];
    } else {
      var key :| key in entries;
      Shrinks(entries, key);
      WhereSplit(entries - {key}, a, b, either);
      WhereWithout(entries, a, key);
      WhereWithout(entries, b, key);
      WhereWithout(entries, either, key);
    }
  }

  lemma {:induction false} WhereSmaller(entries: map<CacheKey, Slot>, keep: Slot -> bool)
    ensures SumBytes(Where(entries, keep)) <= SumBytes(entries) && |Where(entries, keep)| <= |entries|
    decreases |entries|
  {
    if entries == map[] {
      assert Where(entries, keep) == map[];
    } else {
      var key :| key in entries;
      Shrinks(entries, key);
      assert (entries - {key}).Keys == entries.Keys - {key};
      WhereSmaller(entries - {key}, keep);
      WhereWithout(entries, keep, key);
      SumWithout(entries, key);
    }
  }

  function InPart(p: Partitions, partition: nat): Slot -> bool {
    (slot: Slot) => p.PartitionOf(slot.target) == partition
  }

  ghost function PartOf(p: Partitions, entries: map<CacheKey, Slot>, partition: nat): map<CacheKey, Slot> {
    Where(entries, InPart(p, partition))
  }

  ghost predicate PartWithin(p: Partitions, entries: map<CacheKey, Slot>, partition: nat) {
    var part, bound := PartOf(p, entries, partition), p.Policy(partition).capacity;
    |part| <= bound.maxEntries && SatAdd(0, SumBytes(part)) <= bound.maxBytes
  }

  ghost predicate AllWithin(p: Partitions, entries: map<CacheKey, Slot>) {
    forall partition | 0 <= partition <= |p.given| :: PartWithin(p, entries, partition)
  }

  // The policy reads a partition's overflow off the residents, whatever their order.
  lemma OverflowListed(p: Partitions, s: CacheState, keys: seq<CacheKey>, partition: nat)
    requires ListedIn(keys, s.entries)
    ensures p.Overflow(partition, Picked(s.FactsOf(keys), p.Belongs(partition))).None?
            <==> PartWithin(p, s.entries, partition)
  {
    SegmentListed(s, keys, p.Belongs(partition));
    assert Segment(s.entries, p.Belongs(partition)) == PartOf(p, s.entries, partition);
  }

  // ---- the sum over the partitions ----

  // In the rest, or in one of the first `n` partitions.
  function InUpto(p: Partitions, n: nat): Slot -> bool {
    (slot: Slot) => p.PartitionOf(slot.target) == |p.given| || p.PartitionOf(slot.target) < n
  }

  lemma PartFits(p: Partitions, entries: map<CacheKey, Slot>, partition: nat)
    requires PartWithin(p, entries, partition) && SumBytes(entries) <= WORD_MAX
    ensures |Where(entries, InPart(p, partition))| <= p.Policy(partition).capacity.maxEntries
    ensures SumBytes(Where(entries, InPart(p, partition))) <= p.Policy(partition).capacity.maxBytes
  {
    WhereSmaller(entries, InPart(p, partition));
  }

  lemma UptoStep(p: Partitions, entries: map<CacheKey, Slot>, n: nat)
    requires 0 < n <= |p.given|
    ensures |Where(entries, InUpto(p, n))|
            == |Where(entries, InUpto(p, n - 1))| + |Where(entries, InPart(p, n - 1))|
    ensures SumBytes(Where(entries, InUpto(p, n)))
            == SumBytes(Where(entries, InUpto(p, n - 1))) + SumBytes(Where(entries, InPart(p, n - 1)))
  {
    WhereSplit(entries, InUpto(p, n - 1), InPart(p, n - 1), InUpto(p, n));
  }

  lemma UptoNone(p: Partitions, entries: map<CacheKey, Slot>)
    ensures Where(entries, InUpto(p, 0)) == Where(entries, InPart(p, |p.given|))
  {
  }

  lemma CapacityStep(p: Partitions, n: nat)
    requires 0 < n <= |p.given|
    ensures var bound := p.Policy(n - 1).capacity;
            && p.Capacity(n).maxEntries == SatAdd(p.Capacity(n - 1).maxEntries, bound.maxEntries)
            && p.Capacity(n).maxBytes == SatAdd(p.Capacity(n - 1).maxBytes, bound.maxBytes)
  {
  }

  // The count and the bytes of the rest and the first `n` partitions.
  ghost function UptoSize(p: Partitions, entries: map<CacheKey, Slot>, n: nat): (nat, nat) {
    (|Where(entries, InUpto(p, n))|, SumBytes(Where(entries, InUpto(p, n))))
  }

  ghost predicate FitsIn(size: (nat, nat), bound: CacheBound) {
    size.0 <= bound.maxEntries && size.1 <= bound.maxBytes
  }

  lemma UptoGrows(p: Partitions, entries: map<CacheKey, Slot>, n: nat)
    requires 0 < n <= |p.given| && PartWithin(p, entries, n - 1)
    requires |entries| <= WORD_MAX && SumBytes(entries) <= WORD_MAX
    ensures FitsIn(UptoSize(p, entries, n - 1), p.Capacity(n - 1)) ==>
              FitsIn(UptoSize(p, entries, n), p.Capacity(n))
  {
    PartFits(p, entries, n - 1);
    UptoStep(p, entries, n);
    WhereSmaller(entries, InUpto(p, n));
    CapacityStep(p, n);
  }

  // Parts within their bounds add up to no more than the bounds added up.
  lemma {:induction false} UptoFits(p: Partitions, entries: map<CacheKey, Slot>, n: nat)
    requires AllWithin(p, entries) && n <= |p.given|
    requires |entries| <= WORD_MAX && SumBytes(entries) <= WORD_MAX
    ensures FitsIn(UptoSize(p, entries, n), p.Capacity(n))
    decreases n
  {
    if n == 0 {
      PartFits(p, entries, |p.given|);
      UptoNone(p, entries);
    } else {
      UptoFits(p, entries, n - 1);
      UptoGrows(p, entries, n);
    }
  }

  lemma AllWithinNotOver(p: Partitions, s: CacheState)
    requires AllWithin(p, s.entries) && Accounted(s) && s.bytes <= WORD_MAX && |s.entries| <= WORD_MAX
    ensures !s.Over(p.AsPolicy().capacity)
  {
    UptoFits(p, s.entries, |p.given|);
    assert Where(s.entries, InUpto(p, |p.given|)) == s.entries;
  }

  // ---- the eviction loop ----

  // As long as some partition is over, the loop takes an entry of one that is; when none is,
  // it stops.
  lemma PartitionedChooses(p: Partitions, s: CacheState, keys: seq<CacheKey>)
    requires AllNameVictims(p) && ListedIn(keys, s.entries)
    requires Accounted(s) && s.bytes <= WORD_MAX && |s.entries| <= WORD_MAX
    ensures var chosen := s.Choice(p.AsPolicy(), keys);
            && (chosen.None? <==> AllWithin(p, s.entries))
            && (chosen.Some? ==>
                  && chosen.value in s.entries
                  && !PartWithin(p, s.entries, p.PartitionOf(s.entries[chosen.value].target)))
  {
    var furthest := p.Furthest(s.FactsOf(keys), |p.given| + 1);
    match furthest {
      case None =>
        forall partition | 0 <= partition <= |p.given| ensures PartWithin(p, s.entries, partition) {
          OverflowListed(p, s, keys, partition);
        }
        AllWithinNotOver(p, s);
      case Some(partition) =>
        OverflowListed(p, s, keys, partition);
        VictimIsMember(p, s.FactsOf(keys), partition);
        var index := p.Victim(s.FactsOf(keys)).value;
        assert keys[index] in s.entries;
    }
  }

  // The victim is a resident of the partition furthest over.
  lemma VictimIsMember(p: Partitions, facts: seq<EntryFacts>, partition: nat)
    requires AllNameVictims(p) && p.Furthest(facts, |p.given| + 1) == Some(partition)
    ensures var victim := p.Victim(facts);
            victim.Some? && victim.value < |facts| && p.PartitionOf(facts[victim.value].target) == partition
  {
    var members := Picked(facts, p.Belongs(partition));
    assert NamesVictims(p.Policy(partition));
    var chosen := p.Policy(partition).victim(members).value;
    var index := Indices(facts, p.Belongs(partition))[chosen];
    assert p.Belongs(partition)(facts[index]);
  }

  lemma EvictShrinksPart(p: Partitions, s: CacheState, key: CacheKey, partition: nat)
    requires key in s.entries
    ensures PartWithin(p, s.entries, partition) ==> PartWithin(p, s.Evict(key).entries, partition)
  {
    WhereWithout(s.entries, InPart(p, partition), key);
  }

  // The loop ends with every partition within its own bound, and takes nothing from a
  // partition that was within its bound already.
  lemma {:induction false} PartitionedEnforces(p: Partitions, s: CacheState, end: CacheState)
    requires AllNameVictims(p) && s.Enforced(p.AsPolicy(), end)
    requires Accounted(s) && s.bytes <= WORD_MAX && |s.entries| <= WORD_MAX
    ensures AllWithin(p, end.entries) && Accounted(end) && !end.Over(p.AsPolicy().capacity)
    ensures end.bytes <= WORD_MAX && |end.entries| <= WORD_MAX
    ensures forall k | k in s.entries && PartWithin(p, s.entries, p.PartitionOf(s.entries[k].target)) ::
              k in end.entries && end.entries[k] == s.entries[k]
    decreases |s.entries|
  {
    var keys :| Lists(keys, s.entries.Keys) && s.EnforcedBy(p.AsPolicy(), keys, end);
    assert ListedIn(keys, s.entries) by {
      assert forall k | k in keys :: k in s.entries.Keys;
    }
    PartitionedChooses(p, s, keys);
    match s.Choice(p.AsPolicy(), keys) {
      case None =>
        AllWithinNotOver(p, s);
      case Some(key) =>
        Shrinks(s.entries, key);
        EvictKeepsAccount(s, key);
        PartitionedEnforces(p, s.Evict(key), end);
        forall k | k in s.entries && PartWithin(p, s.entries, p.PartitionOf(s.entries[k].target))
          ensures k in end.entries && end.entries[k] == s.entries[k]
        {
          EvictShrinksPart(p, s, key, p.PartitionOf(s.entries[k].target));
          assert k in s.Evict(key).entries;
        }
    }
  }

  // ---- a store ----

  // What a rule keeps of an updated map, when it does not keep the new entry.
  lemma WhereFiled(entries: map<CacheKey, Slot>, keep: Slot -> bool, key: CacheKey, slot: Slot)
    requires !keep(slot)
    ensures |Where(entries[key := slot], keep)| <= |Where(entries, keep)|
    ensures SumBytes(Where(entries[key := slot], keep)) <= SumBytes(Where(entries, keep))
  {
    WhereWithout(entries[key := slot], keep, key);
    assert entries[key := slot] - {key} == entries - {key};
    if key in entries {
      WhereWithout(entries, keep, key);
    } else {
      assert entries - {key} == entries;
    }
  }

  lemma FilingLeavesOthers(p: Partitions, s: CacheState, c: Candidate, partition: nat)
    requires PartWithin(p, s.entries, partition) && partition != p.PartitionOf(c.target)
    ensures PartWithin(p, s.Filed(c).entries, partition)
  {
    WhereFiled(s.entries, InPart(p, partition), c.key, s.Entry(c));
  }

  lemma PartitionedFiles(p: Partitions, s: CacheState, c: Candidate)
    requires Accounted(s) && s.bytes + BodySize(c.representation.body) <= WORD_MAX && |s.entries| < WORD_MAX
    ensures Accounted(s.Filed(c)) && s.Filed(c).bytes <= WORD_MAX && |s.Filed(c).entries| <= WORD_MAX
  {
    RestSum(s, c.key);
    FiledAccount(s, c);
    assert s.Filed(c).entries.Keys == s.entries.Keys + {c.key};
  }

  // The entries of every other partition are all still there.
  ghost predicate OthersKept(p: Partitions, before: map<CacheKey, Slot>, c: Candidate, after: map<CacheKey, Slot>) {
    forall k | k in before && k != c.key && p.PartitionOf(before[k].target) != p.PartitionOf(c.target) ::
      k in after && after[k] == before[k]
  }

  lemma FilingEvictsOwn(p: Partitions, s: CacheState, c: Candidate, kept: CacheState)
    requires AllWithin(p, s.entries)
    requires forall k | k in s.Filed(c).entries
                        && PartWithin(p, s.Filed(c).entries, p.PartitionOf(s.Filed(c).entries[k].target)) ::
               k in kept.entries && kept.entries[k] == s.Filed(c).entries[k]
    ensures OthersKept(p, s.entries, c, kept.entries)
  {
    forall k | k in s.entries && k != c.key && p.PartitionOf(s.entries[k].target) != p.PartitionOf(c.target)
      ensures k in kept.entries && kept.entries[k] == s.entries[k]
    {
      FilingLeavesOthers(p, s, c, p.PartitionOf(s.entries[k].target));
      assert k in s.Filed(c).entries;
    }
  }

  // Whatever is stored, every partition ends within its own bound; and from a state where
  // all were, a store takes entries only from the stored entry's own partition.
  lemma PartitionedStores(p: Partitions, s: CacheState, c: Candidate, outcome: Result<(), Declined>,
                          end: CacheState)
    requires AllNameVictims(p) && s.Stores(p.AsPolicy(), c, outcome, end)
    requires Accounted(s) && AllWithin(p, s.entries)
    requires outcome.Ok? ==> s.bytes + BodySize(c.representation.body) <= WORD_MAX
    requires s.bytes <= WORD_MAX && |s.entries| < WORD_MAX
    ensures AllWithin(p, end.entries) && Accounted(end) && !end.Over(p.AsPolicy().capacity)
    ensures OthersKept(p, s.entries, c, end.entries)
  {
    if outcome.Err? {
      AllWithinNotOver(p, s);
    } else {
      var ticked, limit := s.Ticked(), p.AsPolicy().capacity.maxEntries;
      var kept: CacheState :| ticked.Filed(c).Enforced(p.AsPolicy(), kept) && end == kept.Sweep(limit);
      PartitionedFiles(p, ticked, c);
      PartitionedEnforces(p, ticked.Filed(c), kept);
      FilingEvictsOwn(p, ticked, c, kept);
      SweepKeepsEntries(kept, limit);
    }
  }

  // ---- lookups ----

  // An entry replaced by one of the same size on the same side of a rule changes no sum.
  lemma WhereReplaced(entries: map<CacheKey, Slot>, keep: Slot -> bool, key: CacheKey, slot: Slot)
    requires key in entries && slot.Bytes() == entries[key].Bytes() && keep(slot) == keep(entries[key])
    ensures |Where(entries[key := slot], keep)| == |Where(entries, keep)|
    ensures SumBytes(Where(entries[key := slot], keep)) == SumBytes(Where(entries, keep))
  {
    var before, after := Where(entries, keep), Where(entries[key := slot], keep);
    assert after.Keys == before.Keys;
    if keep(slot) {
      SumWithout(before, key);
      SumWithout(after, key);
      assert after - {key} == before - {key};
    } else {
      assert after == before;
    }
  }

  // A hit changes neither a partition's count nor its bytes.
  lemma HitKeepsPart(p: Partitions, entries: map<CacheKey, Slot>, key: CacheKey, slot: Slot, partition: nat)
    requires key in entries && PartWithin(p, entries, partition)
    requires slot.target == entries[key].target && slot.Bytes() == entries[key].Bytes()
    ensures PartWithin(p, entries[key := slot], partition)
  {
    WhereReplaced(entries, InPart(p, partition), key, slot);
  }

  lemma ServingKeepsParts(p: Partitions, s: CacheState, key: CacheKey, now: Option<Time>, face: Slot -> bool,
                          offer: Slot -> bool)
    requires AllWithin(p, s.entries)
    ensures AllWithin(p, s.Serves(key, now, face, offer).1.entries)
  {
    ServeShape(s, key, now, face, offer);
    forall partition | 0 <= partition <= |p.given|
      ensures PartWithin(p, s.Serves(key, now, face, offer).1.entries, partition)
    {
      assert PartWithin(p, s.entries, partition);
      if key in s.entries {
        EvictShrinksPart(p, s, key, partition);
        HitKeepsPart(p, s.entries, key, Touched(s, key).entries[key], partition);
      }
    }
  }

  // `a` is no further over than `b`: bytes first, then entries.
  predicate NoFurther(a: (nat, nat), b: (nat, nat)) { a.0 < b.0 || (a.0 == b.0 && a.1 <= b.1) }

  // How far over its bound each partition of the residents is.
  function OverBy(parts: Partitions, resident: seq<EntryFacts>): nat -> Option<(nat, nat)> {
    (p: nat) => parts.Overflow(p, Picked(resident, parts.Belongs(p)))
  }

  // The first of the furthest among the first `n`, read off how far each is over.
  function FirstFurthest(over: nat -> Option<(nat, nat)>, n: nat): (furthest: Option<nat>)
    ensures furthest.Some? ==> furthest.value < n && over(furthest.value).Some?
  {
    if n == 0 then None
    else
      var before := FirstFurthest(over, n - 1);
      if over(n - 1).None? then before
      else if before.None? || !NoFurther(over(n - 1).value, over(before.value).value) then Some(n - 1)
      else before
  }

  lemma {:induction false} FirstFurthestIsMost(over: nat -> Option<(nat, nat)>, n: nat, p: nat)
    requires p < n && over(p).Some?
    ensures FirstFurthest(over, n).Some?
    ensures var most := FirstFurthest(over, n).value;
            NoFurther(over(p).value, over(most).value) && (p < most ==> over(p) != over(most))
    decreases n
  {
    if p < n - 1 {
      FirstFurthestIsMost(over, n - 1, p);
    }
  }

  ghost predicate ReadsOver(parts: Partitions, resident: seq<EntryFacts>, over: nat -> Option<(nat, nat)>, p: nat) {
    over(p) == parts.Overflow(p, Picked(resident, parts.Belongs(p)))
  }

  lemma {:induction false} FurthestIsFirst(parts: Partitions, resident: seq<EntryFacts>,
                                           over: nat -> Option<(nat, nat)>, n: nat)
    requires forall p: nat | p < n :: ReadsOver(parts, resident, over, p)
    ensures parts.Furthest(resident, n) == FirstFurthest(over, n)
    decreases n
  {
    if n > 0 {
      FurthestIsFirst(parts, resident, over, n - 1);
      FurthestStep(parts, resident, over, n);
    }
  }

  lemma FurthestStep(parts: Partitions, resident: seq<EntryFacts>, over: nat -> Option<(nat, nat)>, n: nat)
    requires n > 0 && parts.Furthest(resident, n - 1) == FirstFurthest(over, n - 1)
    requires forall p: nat | p < n :: ReadsOver(parts, resident, over, p)
    ensures parts.Furthest(resident, n) == FirstFurthest(over, n)
  {
    assert ReadsOver(parts, resident, over, n - 1);
    var before := FirstFurthest(over, n - 1);
    assert before.Some? ==> ReadsOver(parts, resident, over, before.value);
  }

  // The partition that gives up an entry is the furthest over its own bound, in bytes and then in
  // entries, and the first of those as far.
  lemma FurthestIsMost(parts: Partitions, resident: seq<EntryFacts>, n: nat, p: nat)
    requires p < n && OverBy(parts, resident)(p).Some?
    ensures match parts.Furthest(resident, n)
            case None => false
            case Some(most) =>
              var over := OverBy(parts, resident);
              over(most).Some? && NoFurther(over(p).value, over(most).value) && (p < most ==> over(p) != over(most))
  {
    forall q: nat | q < n ensures ReadsOver(parts, resident, OverBy(parts, resident), q) {
    }
    FurthestIsFirst(parts, resident, OverBy(parts, resident), n);
    FirstFurthestIsMost(OverBy(parts, resident), n, p);
  }
}
