// Byte accounting: the running total the cache keeps against the sizes of what it holds
// (crates/ikigai-core/src/cache.rs). The total saturates, so it is exact only while it
// cannot reach the end of the word.

module CacheAccounting {
  import opened Wrappers
  import opened Words
  import opened CacheEntries
  import opened Cache

  ghost function SumBytes(entries: map<CacheKey, Slot>): nat
    decreases |entries|
  {
    if entries == map[] then 0
    else
      var k :| k in entries;
      Shrinks(entries, k);
      entries[k].Bytes() + SumBytes(entries - {k})
  }

  // Whichever entry is counted first, the sum is the same.
  lemma {:induction false} SumWithout(entries: map<CacheKey, Slot>, k: CacheKey)
    requires k in entries
    ensures SumBytes(entries) == entries[k].Bytes() + SumBytes(entries - {k})
    decreases |entries|
  {
    var first :| first in entries && SumBytes(entries) == entries[first].Bytes() + SumBytes(entries - {first});
    if first != k {
      Shrinks(entries, first);
      Shrinks(entries, k);
      SumWithout(entries - {first}, k);
      SumWithout(entries - {k}, first);
      assert entries - {first} - {k} == entries - {k} - {first};
    }
  }

  // Dropping the last key listed leaves the listing of the rest.
  lemma ListsPrefix(keys: seq<CacheKey>, entries: map<CacheKey, Slot>)
    requires Lists(keys, entries.Keys) && keys != []
    ensures var n := |keys| - 1; keys[n] in entries && Lists(keys[..n], (entries - {keys[n]}).Keys)
  {
    var n := |keys| - 1;
    assert keys[n] in entries.Keys;
    forall k ensures k in (entries - {keys[n]}).Keys <==> k in keys[..n] {
      assert k in keys <==> k in keys[..n] || k == keys[n];
    }
  }

  ghost predicate ListedIn(keys: seq<CacheKey>, entries: map<CacheKey, Slot>) {
    Lists(keys, entries.Keys) && forall k | k in keys :: k in entries
  }

  // The facts under a listing are the facts of the rest, then the last key's.
  lemma FactsStep(s: CacheState, keys: seq<CacheKey>)
    requires ListedIn(keys, s.entries) && keys != []
    ensures var n := |keys| - 1;
            var smaller := s.(entries := s.entries - {keys[n]});
            && ListedIn(keys[..n], smaller.entries)
            && s.FactsOf(keys)[..n] == smaller.FactsOf(keys[..n])
            && s.FactsOf(keys)[n] == s.entries[keys[n]].Facts(keys[n].request)
  {
    var n := |keys| - 1;
    var smaller := s.(entries := s.entries - {keys[n]});
    ListsPrefix(keys, s.entries);
    assert forall k | k in keys[..n] :: k in smaller.entries.Keys;
  }

  // ---- segments: the residents some rule picks out by their facts ----

  ghost function Segment(entries: map<CacheKey, Slot>, keep: EntryFacts -> bool): map<CacheKey, Slot> {
    map k | k in entries && keep(entries[k].Facts(k.request)) :: entries[k]
  }

  // The residents' facts a rule keeps, in order.
  function Picked(resident: seq<EntryFacts>, keep: EntryFacts -> bool): seq<EntryFacts> {
    if resident == [] then []
    else
      var n := |resident| - 1;
      Picked(resident[..n], keep) + if keep(resident[n]) then [resident[n]] else []
  }

  function SatBytes(resident: seq<EntryFacts>): nat {
    if resident == [] then 0
    else SatAdd(SatBytes(resident[..|resident| - 1]), resident[|resident| - 1].bytes)
  }

  lemma SegmentWithout(entries: map<CacheKey, Slot>, keep: EntryFacts -> bool, key: CacheKey)
    requires key in entries
    ensures var (all, rest) := (Segment(entries, keep), Segment(entries - {key}, keep));
            if keep(entries[key].Facts(key.request))
            then |all| == |rest| + 1 && SumBytes(all) == SumBytes(rest) + entries[key].Bytes()
            else all == rest
  {
    SegmentMinus(entries, keep, key);
    if keep(entries[key].Facts(key.request)) {
      SumWithout(Segment(entries, keep), key);
      OneFewer(Segment(entries, keep), key);
    }
  }

  lemma SegmentMinus(entries: map<CacheKey, Slot>, keep: EntryFacts -> bool, key: CacheKey)
    requires key in entries
    ensures Segment(entries - {key}, keep)
         == if keep(entries[key].Facts(key.request)) then Segment(entries, keep) - {key} else Segment(entries, keep)
  {
  }

  lemma OneFewer(entries: map<CacheKey, Slot>, key: CacheKey)
    requires key in entries
    ensures |entries| == |entries - {key}| + 1
  {
    assert (entries - {key}).Keys == entries.Keys - {key};
  }

  lemma PickedStep(resident: seq<EntryFacts>, keep: EntryFacts -> bool)
    requires resident != []
    ensures var n := |resident| - 1;
            var before := Picked(resident[..n], keep);
            var all := Picked(resident, keep);
            if keep(resident[n])
            then |all| == |before| + 1 && SatBytes(all) == SatAdd(SatBytes(before), resident[n].bytes)
            else all == before
  {
    var n := |resident| - 1;
    var before := Picked(resident[..n], keep);
    assert (before + [resident[n]])[..|before|] == before;
  }

  // A policy's own reading of a segment, off the facts in whatever order they come, is the
  // segment's: its count, and its bytes up to the end of the word.
  ghost predicate ReadsSegment(s: CacheState, keys: seq<CacheKey>, keep: EntryFacts -> bool)
    requires ListedIn(keys, s.entries)
  {
    var read, segment := Picked(s.FactsOf(keys), keep), Segment(s.entries, keep);
    |read| == |segment| && SatBytes(read) == SatAdd(0, SumBytes(segment))
  }

  lemma SegmentGrows(s: CacheState, keys: seq<CacheKey>, keep: EntryFacts -> bool)
    requires ListedIn(keys, s.entries) && keys != []
    ensures var n := |keys| - 1;
            var smaller := s.(entries := s.entries - {keys[n]});
            ListedIn(keys[..n], smaller.entries)
            && (ReadsSegment(smaller, keys[..n], keep) ==> ReadsSegment(s, keys, keep))
  {
    var n := |keys| - 1;
    FactsStep(s, keys);
    SegmentWithout(s.entries, keep, keys[n]);
    PickedStep(s.FactsOf(keys), keep);
  }

  lemma {:induction false} SegmentListed(s: CacheState, keys: seq<CacheKey>, keep: EntryFacts -> bool)
    requires ListedIn(keys, s.entries)
    ensures ReadsSegment(s, keys, keep)
    decreases |keys|
  {
    if keys == [] {
      assert s.entries.Keys == {};
    } else {
      var n := |keys| - 1;
      SegmentGrows(s, keys, keep);
      SegmentListed(s.(entries := s.entries - {keys[n]}), keys[..n], keep);
    }
  }

  ghost predicate Accounted(s: CacheState) {
    s.bytes == SumBytes(s.entries)
  }

  lemma EvictKeepsAccount(s: CacheState, k: CacheKey)
    requires Accounted(s) && k in s.entries
    ensures Accounted(s.Evict(k))
  {
    SumWithout(s.entries, k);
  }

  lemma {:induction false} EnforcedKeepsAccount(s: CacheState, policy: CachePolicy, end: CacheState)
    requires Accounted(s) && s.Enforced(policy, end)
    ensures Accounted(end)
    decreases |s.entries|
  {
    var keys :| Lists(keys, s.entries.Keys) && s.EnforcedBy(policy, keys, end);
    var chosen := s.Choice(policy, keys);
    if chosen.Some? {
      Shrinks(s.entries, chosen.value);
      EvictKeepsAccount(s, chosen.value);
      EnforcedKeepsAccount(s.Evict(chosen.value), policy, end);
    }
  }

  // Filing adds the new entry's size and gives back the replaced one's.
  lemma FiledSum(s: CacheState, c: Candidate)
    ensures SumBytes(s.Filed(c).entries)
            == SumBytes(s.entries - {c.key}) + BodySize(c.representation.body)
  {
    var filed := s.Filed(c);
    SumWithout(filed.entries, c.key);
    assert filed.entries - {c.key} == s.entries - {c.key};
  }

  lemma RestSum(s: CacheState, key: CacheKey)
    ensures SumBytes(s.entries - {key})
            == if key in s.entries then SumBytes(s.entries) - s.entries[key].Bytes() else SumBytes(s.entries)
  {
    if key in s.entries {
      SumWithout(s.entries, key);
    } else {
      assert s.entries - {key} == s.entries;
    }
  }

  // The total stays exact through a filing exactly when it does not run off the word.
  lemma FiledAccount(s: CacheState, c: Candidate)
    requires Accounted(s)
    ensures Accounted(s.Filed(c))
            <==> SumBytes(s.entries - {c.key}) + BodySize(c.representation.body) <= WORD_MAX
  {
    FiledSum(s, c);
    RestSum(s, c.key);
  }

  lemma SweepKeepsEntries(s: CacheState, limit: nat)
    ensures s.Sweep(limit).entries == s.entries && s.Sweep(limit).bytes == s.bytes && s.Sweep(limit).tick == s.tick
  {
  }

  // A store under a bound that cannot overflow the word keeps the account, whatever the
  // policy, as long as it admits nothing larger than the byte bound.
  lemma StoreKeepsAccount(s: CacheState, policy: CachePolicy, c: Candidate, outcome: Result<(), Declined>,
                          end: CacheState)
    requires Accounted(s) && s.bytes <= policy.capacity.maxBytes
    requires policy.capacity.maxBytes + policy.capacity.maxBytes <= WORD_MAX
    requires forall facts :: policy.admit(facts) ==> facts.bytes <= policy.capacity.maxBytes
    requires s.Stores(policy, c, outcome, end)
    ensures Accounted(end)
  {
    if outcome.Ok? {
      var ticked := s.Ticked();
      var kept: CacheState :| ticked.Filed(c).Enforced(policy, kept) && end == kept.Sweep(policy.capacity.maxEntries);
      RestSum(ticked, c.key);
      FiledAccount(ticked, c);
      assert policy.admit(ticked.CandidateFacts(c));
      EnforcedKeepsAccount(ticked.Filed(c), policy, kept);
    }
  }

  lemma ServeKeepsAccount(s: CacheState, key: CacheKey, now: Option<Time>, face: Slot -> bool, offer: Slot -> bool)
    requires Accounted(s)
    ensures Accounted(s.Serves(key, now, face, offer).1)
  {
    if key in s.entries {
      EvictKeepsAccount(s, key);
      var s' := s.Serves(key, now, face, offer).1;
      if key in s'.entries {
        SumWithout(s.entries, key);
        SumWithout(s'.entries, key);
        assert s'.entries - {key} == s.entries - {key};
      }
    }
  }
}
