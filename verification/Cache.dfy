// The representation cache (crates/ikigai-core/src/cache.rs): what an entry is, what one
// critical section of the cache does to its state, and the cache itself as an object.
//
// `CacheState` is the value the lock guards. Its functions and relations say what each
// operation does; `ReprCache` does it in place, field by field, and is proved to follow them.
// The maps of the source iterate in an order nobody controls, so every operation that walks
// the residents is a relation over an arbitrary listing of the keys.

module CacheEntries {
  import opened Wrappers
  import opened Words

  type Thread = string
  type Time = nat

  // A request's content hash, as the four 64-bit words the sketch reads it by.
  datatype RequestId = RequestId(words: (nat, nat, nat, nat))

  datatype CacheKey = CacheKey(request: RequestId, capability: nat, scope: nat)

  datatype Expiry = Always | At(deadline: Time) | Never

  // A body is its size and whether it can be read again.
  datatype Body = Buffer(len: nat) | Replay(hint: Option<nat>) | Once

  datatype Representation = Representation(
    mediaType: string,
    body: Body,
    expiry: Expiry,
    threads: set<Thread>,
    validator: Option<string>)

  datatype Provenance = Provenance(expiry: Expiry, threads: set<Thread>)

  // What a body counts against the byte bound: its length, or the whole word when unknown.
  function BodySize(body: Body): (size: nat)
    ensures size <= WORD_MAX
  {
    match body
    case Buffer(len) => if len <= WORD_MAX then len else WORD_MAX
    case Replay(Some(len)) => if len <= WORD_MAX then len else WORD_MAX
    case _ => WORD_MAX
  }

  datatype EntryFacts = EntryFacts(
    request: RequestId,
    target: string,
    mediaType: string,
    bytes: nat,
    costMillis: Option<nat>,
    hits: nat,
    threads: nat,
    storedTick: nat,
    lastUsedTick: nat)

  datatype Slot = Slot(
    incoming: Option<Provenance>,
    target: string,
    representation: Representation,
    edges: map<Thread, nat>,
    costMillis: Option<nat>,
    hits: nat,
    storedTick: nat,
    lastUsedTick: nat)
  {
    function Bytes(): (size: nat)
      ensures size <= WORD_MAX
    {
      BodySize(representation.body)
    }

    function Facts(request: RequestId): EntryFacts {
      EntryFacts(request, target, representation.mediaType, Bytes(), costMillis, hits,
                 |edges|, storedTick, lastUsedTick)
    }
  }

  datatype FailedSlot = FailedSlot(
    incoming: Option<Provenance>,
    target: string,
    error: string,
    until: Time,
    edges: map<Thread, nat>)

  datatype EntryState = Live | Cut | Expired

  datatype CacheBound = CacheBound(maxEntries: nat, maxBytes: nat)

  // A cache policy as what it answers while one operation holds the lock.
  datatype CachePolicy = CachePolicy(
    capacity: CacheBound,
    admit: EntryFacts -> bool,
    victim: seq<EntryFacts> -> Option<nat>,
    contest: (EntryFacts, seq<EntryFacts>) -> bool,
    partitioned: bool,
    overPartition: seq<EntryFacts> -> bool)

  // Why a store was declined.
  datatype Declined = CutInFlight | ByPolicy

  // `keys` is one iteration order of the set `all`.
  ghost predicate Lists<T(!new)>(keys: seq<T>, all: set<T>) {
    && (forall k :: k in all <==> k in keys)
    && (forall i, j :: 0 <= i < j < |keys| ==> keys[i] != keys[j])
  }

  lemma {:induction false} ListsLength<T(!new)>(keys: seq<T>, all: set<T>)
    requires Lists(keys, all)
    ensures |keys| == |all|
    decreases |keys|
  {
    if keys == [] {
      assert all == {};
    } else {
      var last := keys[|keys| - 1];
      var rest := keys[..|keys| - 1];
      forall k ensures k in all - {last} <==> k in rest {
        assert k in keys <==> k in rest || k == last;
      }
      ListsLength(rest, all - {last});
    }
  }

  // A set has an iteration order.
  method Enumerate<T(==, !new)>(all: set<T>) returns (keys: seq<T>)
    ensures Lists(keys, all)
  {
    keys := [];
    var left := all;
    while left != {}
      invariant left <= all
      invariant Lists(keys, all - left)
      decreases left
    {
      var k :| k in left;
      assert all - (left - {k}) == (all - left) + {k};
      keys := keys + [k];
      left := left - {k};
    }
    assert all - left == all;
  }
}

module Cache {
  import opened Wrappers
  import opened Words
  import opened CacheEntries

  const CUT_LOG: nat := 4096
  const CACHED_FAILURES: nat := 1024

  // One answer offered for storing, with the snapshot taken before it was computed.
  datatype Candidate = Candidate(
    key: CacheKey,
    target: string,
    representation: Representation,
    taken: nat,
    costMillis: Option<nat>,
    incoming: Option<Provenance>)

  datatype FailureCandidate = FailureCandidate(
    key: CacheKey,
    target: string,
    error: string,
    until: Time,
    threads: set<Thread>,
    taken: nat,
    incoming: Option<Provenance>)

  // What a lookup answered.
  datatype Served = Hit(slot: Slot) | Offer(offered: Slot) | Miss

  // Whether any cut in the log after `taken` was of one of `threads`, read newest first.
  function CutAfter(cuts: seq<(Thread, nat)>, threads: set<Thread>, taken: nat): bool {
    if cuts == [] then false
    else
      var (thread, seqno) := cuts[|cuts| - 1];
      seqno > taken && (thread in threads || CutAfter(cuts[..|cuts| - 1], threads, taken))
  }

  // The threads some map of slots pins.
  function PinnedBy(entries: map<CacheKey, Slot>): set<Thread> {
    set k, t | k in entries && t in entries[k].edges :: t
  }

  function PinnedByFailures(failures: map<CacheKey, FailedSlot>): set<Thread> {
    set k, t | k in failures && t in failures[k].edges :: t
  }

  datatype CacheState = CacheState(
    entries: map<CacheKey, Slot>,
    failures: map<CacheKey, FailedSlot>,
    generations: map<Thread, nat>,
    cuts: seq<(Thread, nat)>,
    horizon: nat,
    seqno: nat,
    tick: nat,
    bytes: nat,
    evictions: nat)
  {
    function GenerationOf(thread: Thread): nat {
      if thread in generations then generations[thread] else 0
    }

    predicate EdgesCurrent(edges: map<Thread, nat>) {
      forall t | t in edges :: GenerationOf(t) == edges[t]
    }

    // A cut edge is reported ahead of a passed deadline.
    function StateOf(slot: Slot, now: Option<Time>): EntryState {
      if !EdgesCurrent(slot.edges) then Cut
      else if slot.representation.expiry.At?
              && !(now.Some? && now.value < slot.representation.expiry.deadline) then Expired
      else Live
    }

    function FailureState(slot: FailedSlot, now: Option<Time>): EntryState {
      if !EdgesCurrent(slot.edges) then Cut
      else if now.Some? && now.value < slot.until then Live
      else Expired
    }

    // Whether a thread was cut after `taken`, or the log can no longer tell.
    predicate CutSince(threads: set<Thread>, taken: nat) {
      threads != {} && (taken < horizon || CutAfter(cuts, threads, taken))
    }

    function Pins(threads: set<Thread>): map<Thread, nat> {
      map t | t in threads :: GenerationOf(t)
    }

    function RecordCut(thread: Thread): CacheState {
      var full := |cuts| >= CUT_LOG && |cuts| > 0;
      this.(generations := generations[thread := GenerationOf(thread) + 1],
            seqno := seqno + 1,
            horizon := if full then cuts[0].1 else horizon,
            cuts := (if full then cuts[1..] else cuts) + [(thread, seqno + 1)])
    }

    // An entry leaves: its bytes are given back and the eviction counted.
    function Evict(key: CacheKey): CacheState
      requires key in entries
    {
      this.(entries := entries - {key},
            bytes := SatSub(bytes, entries[key].Bytes()),
            evictions := SatAdd(evictions, 1))
    }

    function Watermark(maxEntries: nat): nat {
      var doubled := SatAdd(maxEntries, maxEntries);
      if doubled > 1024 then doubled else 1024
    }

    // Forget the generations of threads nothing pins, once there are enough to matter.
    function Sweep(maxEntries: nat): CacheState {
      if |generations| <= Watermark(maxEntries) then this
      else
        var pinned := PinnedBy(entries) + PinnedByFailures(failures);
        this.(generations := map t | t in generations && t in pinned :: generations[t])
    }

    // The facts of the residents in one iteration order.
    function FactsOf(keys: seq<CacheKey>): seq<EntryFacts>
      requires forall k | k in keys :: k in entries
    {
      seq(|keys|, i requires 0 <= i < |keys| => entries[keys[i]].Facts(keys[i].request))
    }

    predicate Over(bound: CacheBound) {
      |entries| > bound.maxEntries || bytes > bound.maxBytes
    }

    // What one turn of the eviction loop takes out, under one iteration order.
    function Choice(policy: CachePolicy, keys: seq<CacheKey>): (chosen: Option<CacheKey>)
      requires forall k | k in keys :: k in entries
      ensures chosen.Some? ==> chosen.value in keys
    {
      var facts := FactsOf(keys);
      if !Over(policy.capacity) && !(policy.partitioned && policy.overPartition(facts)) then None
      else
        match policy.victim(facts)
        case None => None
        case Some(index) => if index < |keys| then Some(keys[index]) else None
    }

    // The eviction loop, from this state, may end in `end`.
    ghost predicate Enforced(policy: CachePolicy, end: CacheState)
      decreases |entries|
    {
      exists keys :: Lists(keys, entries.Keys) && EnforcedBy(policy, keys, end)
    }

    ghost predicate EnforcedBy(policy: CachePolicy, keys: seq<CacheKey>, end: CacheState)
      requires Lists(keys, entries.Keys)
      decreases |entries|, 0
    {
      match Choice(policy, keys)
      case None => end == this
      case Some(key) =>
        assert |entries - {key}| < |entries| by { Shrinks(entries, key); }
        Evict(key).Enforced(policy, end)
    }

    function CandidateFacts(c: Candidate): EntryFacts {
      EntryFacts(c.key.request, c.target, c.representation.mediaType,
                 BodySize(c.representation.body), c.costMillis, 0,
                 |c.representation.threads|, tick, tick)
    }

    // The entry an admitted candidate becomes, once the tick has moved.
    function Entry(c: Candidate): Slot {
      Slot(c.incoming, c.target, c.representation, Pins(c.representation.threads),
           c.costMillis, 0, tick, tick)
    }

    // Whether the policy is asked to weigh the candidate against the residents.
    predicate Contested(policy: CachePolicy, c: Candidate) {
      c.key !in entries
      && (|entries| >= policy.capacity.maxEntries
          || SatAdd(bytes, BodySize(c.representation.body)) > policy.capacity.maxBytes
          || policy.partitioned)
    }

    // Some iteration order of the residents gives the contest this answer.
    ghost predicate ContestAnswers(policy: CachePolicy, c: Candidate, answer: bool) {
      exists keys :: Lists(keys, entries.Keys)
                     && policy.contest(CandidateFacts(c), FactsOf(keys)) == answer
    }

    // The entry filed, before any bound is enforced: it supersedes a failure and a replaced
    // entry under its own key.
    function Filed(c: Candidate): CacheState {
      var entry := Entry(c);
      var kept := if c.key in entries then SatSub(bytes, entries[c.key].Bytes()) else bytes;
      this.(entries := entries[c.key := entry],
            failures := failures - {c.key},
            bytes := SatAdd(kept, entry.Bytes()))
    }

    function Ticked(): CacheState {
      this.(tick := tick + 1)
    }

    // Storing `c` from this state may answer `outcome` and end in `end`.
    ghost predicate Stores(policy: CachePolicy, c: Candidate, outcome: Result<(), Declined>,
                           end: CacheState)
    {
      if c.representation.body.Once? then outcome == Err(ByPolicy) && end == this
      else if CutSince(c.representation.threads, c.taken) then
        outcome == Err(CutInFlight) && end == this
      else Ticked().Weighs(policy, c, outcome, end)
    }

    // The part of a store after the race check: admission, contest, filing, eviction, sweep.
    ghost predicate Weighs(policy: CachePolicy, c: Candidate, outcome: Result<(), Declined>,
                           end: CacheState)
    {
      match outcome
      case Err(reason) =>
        reason == ByPolicy && end == this
        && (!policy.admit(CandidateFacts(c))
            || (Contested(policy, c) && ContestAnswers(policy, c, false)))
      case Ok(_) =>
        policy.admit(CandidateFacts(c))
        && (Contested(policy, c) ==> ContestAnswers(policy, c, true))
        && Keeps(policy, c, end)
    }

    ghost predicate Keeps(policy: CachePolicy, c: Candidate, end: CacheState) {
      exists kept: CacheState ::
        Filed(c).Enforced(policy, kept) && end == kept.Sweep(policy.capacity.maxEntries)
    }

    // Storing a failure: the soonest to expire makes room, whichever of equals is met first.
    ghost predicate StoresFailure(f: FailureCandidate, outcome: Result<(), Declined>,
                                  end: CacheState)
    {
      if CutSince(f.threads, f.taken) then outcome == Err(CutInFlight) && end == this
      else
        outcome == Ok(())
        && exists room: map<CacheKey, FailedSlot> ::
             MakesRoom(f.key, room) && end == this.(failures := room[f.key := FailedEntry(f)])
    }

    function FailedEntry(f: FailureCandidate): FailedSlot {
      FailedSlot(f.incoming, f.target, f.error, f.until, Pins(f.threads))
    }

    ghost predicate MakesRoom(key: CacheKey, room: map<CacheKey, FailedSlot>) {
      if |failures| >= CACHED_FAILURES && key !in failures then
        exists soonest :: soonest in failures
                          && (forall k | k in failures :: failures[soonest].until <= failures[k].until)
                          && room == failures - {soonest}
      else room == failures
    }

    // A lookup under `key`: a live entry counts a hit, an entry expired by time alone that
    // carries a validator is offered, any other stale entry leaves.
    function Serves(key: CacheKey, now: Option<Time>, face: Slot -> bool, offer: Slot -> bool)
      : (Served, CacheState)
    {
      if key !in entries then (Miss, this)
      else
        var slot := entries[key];
        match StateOf(slot, now)
        case Live =>
          if !face(slot) then (Miss, this)
          else
            (Hit(slot),
             this.(tick := tick + 1,
                   entries := entries[key := slot.(hits := slot.hits + 1, lastUsedTick := tick + 1)]))
        case Expired =>
          if slot.representation.validator.Some? then
            (if offer(slot) then Offer(slot) else Miss, this)
          else (Miss, Evict(key))
        case Cut => (Miss, Evict(key))
    }

    // A lookup by a caller under `incoming`.
    function Looks(key: CacheKey, now: Option<Time>, incoming: Option<Provenance>, offering: bool)
      : (Served, CacheState)
    {
      Serves(key, now, Face(incoming), OfferFace(incoming, offering))
    }

    // Forget the entry an offer was made from, and no other stored under the key since.
    function Discards(key: CacheKey, offeredTick: nat): CacheState {
      if key in entries && entries[key].storedTick == offeredTick then Evict(key) else this
    }

    function ServesFailure(key: CacheKey, now: Option<Time>, incoming: Option<Provenance>)
      : (Option<FailedSlot>, CacheState)
    {
      if key !in failures then (None, this)
      else
        var slot := failures[key];
        if FailureState(slot, now).Live? then
          (if slot.incoming == incoming then Some(slot) else None, this)
        else (None, this.(failures := failures - {key}))
    }
  }

  // A live entry is an answer only under the upstream it was stored under, and only when its body can
  // be read again.
  function Face(incoming: Option<Provenance>): Slot -> bool {
    (slot: Slot) => slot.incoming == incoming && !slot.representation.body.Once?
  }

  // An expired one is offered likewise, when the caller takes offers.
  function OfferFace(incoming: Option<Provenance>, offering: bool): Slot -> bool {
    (slot: Slot) => offering && slot.incoming == incoming && !slot.representation.body.Once?
  }

  // The three things a lookup can do to the state.
  function Touched(s: CacheState, key: CacheKey): CacheState
    requires key in s.entries
  {
    var used := s.entries[key].(hits := s.entries[key].hits + 1, lastUsedTick := s.tick + 1);
    s.(tick := s.tick + 1, entries := s.entries[key := used])
  }

  lemma ServeShape(s: CacheState, key: CacheKey, now: Option<Time>, face: Slot -> bool, offer: Slot -> bool)
    ensures var (served, end) := s.Serves(key, now, face, offer);
            && (served.Hit? ==> key in s.entries && served.slot == s.entries[key] && end == Touched(s, key))
            && (!served.Hit? ==> end == s || (key in s.entries && end == s.Evict(key)))
  {
  }

  lemma Shrinks<K, V>(m: map<K, V>, key: K)
    requires key in m
    ensures |m - {key}| < |m|
  {
    assert (m - {key}).Keys == m.Keys - {key};
  }

  const EMPTY: CacheState := CacheState(map[], map[], map[], [], 0, 0, 0, 0, 0)

  // One operation, whole, as it is seen by the others.
  datatype Step =
    | Storing(c: Candidate, outcome: Result<(), Declined>)
    | StoringFailure(f: FailureCandidate, failed: Result<(), Declined>)
    | Serving(key: CacheKey, now: Option<Time>, face: Slot -> bool, offer: Slot -> bool)
    | Discarding(discarded: CacheKey, tick: nat)
    | ServingFailure(failure: CacheKey, at: Option<Time>, incoming: Option<Provenance>)
    | Cutting(thread: Thread)

  ghost predicate Steps(s: CacheState, step: Step, s': CacheState, policy: CachePolicy) {
    match step
    case Storing(c, outcome) => s.Stores(policy, c, outcome, s')
    case StoringFailure(f, failed) => s.StoresFailure(f, failed, s')
    case Serving(key, now, face, offer) => s' == s.Serves(key, now, face, offer).1
    case Discarding(key, tick) => s' == s.Discards(key, tick)
    case ServingFailure(key, now, incoming) => s' == s.ServesFailure(key, now, incoming).1
    case Cutting(thread) => s' == s.RecordCut(thread)
  }

  // The cache as the source's object: every field updated in place under one lock, and the
  // cut counter published apart from it.
  class ReprCache {
    const policy: CachePolicy
    var entries: map<CacheKey, Slot>
    var failures: map<CacheKey, FailedSlot>
    var generations: map<Thread, nat>
    var cuts: seq<(Thread, nat)>
    var horizon: nat
    var seqno: nat
    var tick: nat
    var bytes: nat
    var evictions: nat
    var cutSeq: nat

    function State(): CacheState
      reads this
    {
      CacheState(entries, failures, generations, cuts, horizon, seqno, tick, bytes, evictions)
    }

    constructor (policy: CachePolicy)
      ensures State() == EMPTY && cutSeq == 0 && this.policy == policy
    {
      this.policy := policy;
      entries, failures, generations, cuts := map[], map[], map[], [];
      horizon, seqno, tick, bytes, evictions, cutSeq := 0, 0, 0, 0, 0, 0;
    }

    method Snapshot() returns (taken: nat)
      ensures taken == cutSeq
    {
      taken := cutSeq;
    }

    // The first half of a cut: recorded under the lock, not yet published.
    method RecordCut(thread: Thread) returns (recorded: nat)
      modifies this
      ensures State() == old(State()).RecordCut(thread)
      ensures recorded == seqno && cutSeq == old(cutSeq)
    {
      var generation := if thread in generations then generations[thread] else 0;
      generations := generations[thread := generation + 1];
      seqno := seqno + 1;
      recorded := seqno;
      if |cuts| >= CUT_LOG {
        horizon := cuts[0].1;
        cuts := cuts[1..];
      }
      cuts := cuts + [(thread, recorded)];
    }

    method CutThread(thread: Thread)
      modifies this
      ensures State() == old(State()).RecordCut(thread) && cutSeq == seqno
    {
      var recorded := RecordCut(thread);
      cutSeq := recorded;
    }

    method Remove(key: CacheKey)
      requires key in entries
      modifies this
      ensures State() == old(State()).Evict(key) && cutSeq == old(cutSeq)
    {
      bytes := SatSub(bytes, entries[key].Bytes());
      evictions := SatAdd(evictions, 1);
      entries := entries - {key};
    }

    method EnforceBound()
      modifies this
      ensures old(State()).Enforced(policy, State())
      ensures cutSeq == old(cutSeq)
    {
      var bound := policy.capacity;
      var enforcing := true;
      while enforcing
        invariant cutSeq == old(cutSeq)
        invariant enforcing ==>
            forall end: CacheState :: State().Enforced(policy, end) ==> old(State()).Enforced(policy, end)
        invariant !enforcing ==> old(State()).Enforced(policy, State())
        decreases |entries|, enforcing
      {
        var keys := Enumerate(entries.Keys);
        ghost var before := State();
        assert forall k | k in keys :: k in entries.Keys;
        var over := |entries| > bound.maxEntries || bytes > bound.maxBytes;
        var facts := State().FactsOf(keys);
        if !over && !(policy.partitioned && policy.overPartition(facts)) {
          assert before.EnforcedBy(policy, keys, State());
          enforcing := false;
        } else {
          var victim := policy.victim(facts);
          if victim.None? || victim.value >= |keys| {
            assert before.EnforcedBy(policy, keys, State());
            enforcing := false;
          } else {
            Shrinks(entries, keys[victim.value]);
            Remove(keys[victim.value]);
            forall end: CacheState | State().Enforced(policy, end)
              ensures before.Enforced(policy, end)
            {
              assert before.EnforcedBy(policy, keys, end);
            }
          }
        }
      }
    }

    method SweepGenerations(maxEntries: nat)
      modifies this
      ensures State() == old(State()).Sweep(maxEntries) && cutSeq == old(cutSeq)
    {
      var doubled := SatAdd(maxEntries, maxEntries);
      var watermark := if doubled > 1024 then doubled else 1024;
      if |generations| <= watermark {
        return;
      }
      var pinned := PinnedBy(entries) + PinnedByFailures(failures);
      generations := map t | t in generations && t in pinned :: generations[t];
    }

    method StoreOutcome(c: Candidate) returns (outcome: Result<(), Declined>)
      modifies this
      ensures old(State()).Stores(policy, c, outcome, State())
      ensures cutSeq == old(cutSeq)
    {
      if c.representation.body.Once? {
        return Err(ByPolicy);
      }
      if State().CutSince(c.representation.threads, c.taken) {
        return Err(CutInFlight);
      }
      tick := tick + 1;
      var worth := Worthwhile(c);
      if !worth {
        return Err(ByPolicy);
      }
      Keep(c);
      return Ok(());
    }

    // File the admitted entry, then make room and forget what nothing pins.
    method Keep(c: Candidate)
      modifies this
      ensures old(State()).Keeps(policy, c, State())
      ensures cutSeq == old(cutSeq)
    {
      ghost var before := State();
      File(c);
      EnforceBound();
      ghost var kept := State();
      SweepGenerations(policy.capacity.maxEntries);
      assert before.Filed(c).Enforced(policy, kept);
    }

    // Admission, and the contest when the candidate would displace a resident.
    method Worthwhile(c: Candidate) returns (worth: bool)
      ensures worth ==> policy.admit(State().CandidateFacts(c))
      ensures worth && State().Contested(policy, c) ==> State().ContestAnswers(policy, c, true)
      ensures !worth ==> !policy.admit(State().CandidateFacts(c))
                         || (State().Contested(policy, c) && State().ContestAnswers(policy, c, false))
    {
      var facts := State().CandidateFacts(c);
      if !policy.admit(facts) {
        return false;
      }
      if !State().Contested(policy, c) {
        return true;
      }
      var keys := Enumerate(entries.Keys);
      assert forall k | k in keys :: k in entries.Keys;
      worth := policy.contest(facts, State().FactsOf(keys));
      assert State().ContestAnswers(policy, c, worth);
    }

    // File the admitted entry, in place of whatever its key held.
    method File(c: Candidate)
      modifies this
      ensures State() == old(State()).Filed(c) && cutSeq == old(cutSeq)
    {
      var entry := State().Entry(c);
      failures := failures - {c.key};
      if c.key in entries {
        bytes := SatSub(bytes, entries[c.key].Bytes());
      }
      entries := entries[c.key := entry];
      bytes := SatAdd(bytes, entry.Bytes());
    }

    method StoreFailure(f: FailureCandidate) returns (outcome: Result<(), Declined>)
      modifies this
      ensures old(State()).StoresFailure(f, outcome, State())
      ensures cutSeq == old(cutSeq)
    {
      if State().CutSince(f.threads, f.taken) {
        return Err(CutInFlight);
      }
      ghost var before := State();
      var entry := State().FailedEntry(f);
      if |failures| >= CACHED_FAILURES && f.key !in failures {
        var soonest := SoonestFailure();
        failures := failures - {soonest};
      }
      assert before.MakesRoom(f.key, failures);
      failures := failures[f.key := entry];
      return Ok(());
    }

    method SoonestFailure() returns (soonest: CacheKey)
      requires |failures| > 0
      ensures soonest in failures
      ensures forall k | k in failures :: failures[soonest].until <= failures[k].until
    {
      var keys := Enumerate(failures.Keys);
      ListsLength(keys, failures.Keys);
      assert forall k | k in keys :: k in failures.Keys;
      soonest := keys[0];
      for i := 1 to |keys|
        invariant soonest in failures
        invariant forall j | 0 <= j < i :: failures[soonest].until <= failures[keys[j]].until
      {
        if failures[keys[i]].until < failures[soonest].until {
          soonest := keys[i];
        }
      }
    }

    method ServeOrOffer(key: CacheKey, now: Option<Time>, face: Slot -> bool, offer: Slot -> bool)
      returns (served: Served)
      modifies this
      ensures (served, State()) == old(State()).Serves(key, now, face, offer)
      ensures cutSeq == old(cutSeq)
    {
      if key !in entries {
        return Miss;
      }
      var slot := entries[key];
      match State().StateOf(slot, now)
      case Live =>
        if !face(slot) {
          return Miss;
        }
        tick := tick + 1;
        entries := entries[key := slot.(hits := slot.hits + 1, lastUsedTick := tick)];
        return Hit(slot);
      case Expired =>
        if slot.representation.validator.Some? {
          return if offer(slot) then Offer(slot) else Miss;
        }
        Remove(key);
        return Miss;
      case Cut =>
        Remove(key);
        return Miss;
    }

    method Lookup(key: CacheKey, now: Option<Time>, incoming: Option<Provenance>, offering: bool)
      returns (served: Served)
      modifies this
      ensures (served, State()) == old(State()).Looks(key, now, incoming, offering)
      ensures cutSeq == old(cutSeq)
    {
      served := ServeOrOffer(key, now, Face(incoming), OfferFace(incoming, offering));
    }

    method Discard(key: CacheKey, offeredTick: nat)
      modifies this
      ensures State() == old(State()).Discards(key, offeredTick) && cutSeq == old(cutSeq)
    {
      if key in entries && entries[key].storedTick == offeredTick {
        Remove(key);
      }
    }

    method GetFailure(key: CacheKey, now: Option<Time>, incoming: Option<Provenance>)
      returns (served: Option<FailedSlot>)
      modifies this
      ensures (served, State()) == old(State()).ServesFailure(key, now, incoming)
      ensures cutSeq == old(cutSeq)
    {
      if key !in failures {
        return None;
      }
      var slot := failures[key];
      if State().FailureState(slot, now).Live? {
        return if slot.incoming == incoming then Some(slot) else None;
      }
      failures := failures - {key};
      return None;
    }
  }
}
