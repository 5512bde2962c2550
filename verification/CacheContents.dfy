// What the cache holds and hands out, over every run (crates/ikigai-core/src/cache.rs): each resident
// is the last answer stored under its key, and a lookup answers it exactly when it stands.

module CacheContents {
  import opened Wrappers
  import opened Words
  import opened CacheEntries
  import opened Cache
  import opened CacheSafety

  // ---- the books ----

  // The entry is what the store put down, answered `times` since.
  ghost predicate Keeps(slot: Slot, store: Store, times: nat, now: nat) {
    && slot.incoming == store.c.incoming && slot.target == store.c.target
    && slot.representation == store.c.representation && !slot.representation.body.Once?
    && slot.costMillis == store.c.costMillis && slot.edges.Keys == store.c.representation.threads
    && slot.hits == times && slot.storedTick == store.tick <= slot.lastUsedTick <= now
  }

  ghost predicate LastUnder(stores: seq<Store>, key: CacheKey, n: nat) {
    n < |stores| && stores[n].c.key == key && forall m | n < m < |stores| :: stores[m].c.key != key
  }

  ghost predicate EntryKept(w: World, key: CacheKey)
    requires key in w.state.entries
  {
    && key in w.which && LastUnder(w.stores, key, w.which[key]) && key in w.served && key in w.origins
    && Keeps(w.state.entries[key], w.stores[w.which[key]], w.served[key], w.state.tick)
    && w.origins[key].taken == w.stores[w.which[key]].c.taken
  }

  ghost predicate FailureKept(w: World, key: CacheKey)
    requires key in w.state.failures
  {
    && key in w.failed && key in w.failureOrigins
    && var slot, f := w.state.failures[key], w.failed[key];
       && f.key == key && slot.incoming == f.incoming && slot.target == f.target && slot.error == f.error
       && slot.until == f.until && slot.edges.Keys == f.threads && w.failureOrigins[key].taken == f.taken
  }

  // Stores are ticked apart.
  ghost predicate Ticking(stores: seq<Store>, now: nat) {
    && (forall i, j | 0 <= i < j < |stores| :: stores[i].tick < stores[j].tick)
    && forall i | 0 <= i < |stores| :: stores[i].tick <= now
  }

  // Every accepted store is resident, evicted or replaced, until there are more of them than the word counts.
  ghost predicate Tallied(w: World) {
    |w.stores| <= WORD_MAX ==> w.state.evictions + |w.state.entries| + w.replaced == |w.stores|
  }

  ghost predicate EntriesKept(w: World) { forall k | k in w.state.entries :: EntryKept(w, k) }

  ghost predicate FailuresKept(w: World) {
    |w.state.failures| <= CACHED_FAILURES && forall k | k in w.state.failures :: FailureKept(w, k)
  }

  ghost predicate Booked(w: World) {
    EntriesKept(w) && FailuresKept(w) && Ticking(w.stores, w.state.tick) && Tallied(w)
  }

  // ---- every step keeps them ----

  ghost predicate SameBooks(w: World, w': World) {
    && w'.stores == w.stores && w'.which == w.which && w'.served == w.served && w'.replaced == w.replaced
    && w'.failed == w.failed && w'.origins == w.origins && w'.failureOrigins == w.failureOrigins
  }

  // Entries and failures only left, and were counted leaving.
  ghost predicate Loses(s: CacheState, s': CacheState) {
    && s'.tick >= s.tick
    && (forall k | k in s'.entries :: k in s.entries && s'.entries[k] == s.entries[k])
    && (forall k | k in s'.failures :: k in s.failures && s'.failures[k] == s.failures[k])
    && |s'.failures| <= |s.failures|
    && (s.evictions + |s.entries| <= WORD_MAX ==> s'.evictions + |s'.entries| == s.evictions + |s.entries|)
  }

  lemma LosingBooked(w: World, w': World)
    requires Booked(w) && SameBooks(w, w') && Loses(w.state, w'.state)
    ensures Booked(w')
  {
    forall k | k in w'.state.entries ensures EntryKept(w', k) {
      assert EntryKept(w, k);
    }
    FailuresStay(w, w');
  }

  lemma FailuresStay(w: World, w': World)
    requires FailuresKept(w) && w'.failed == w.failed && w'.failureOrigins == w.failureOrigins
    requires |w'.state.failures| <= |w.state.failures|
    requires forall k | k in w'.state.failures :: k in w.state.failures && w'.state.failures[k] == w.state.failures[k]
    ensures FailuresKept(w')
  {
    forall k | k in w'.state.failures ensures FailureKept(w', k) {
      assert FailureKept(w, k);
    }
  }

  lemma EvictLoses(s: CacheState, key: CacheKey)
    requires key in s.entries
    ensures Loses(s, s.Evict(key))
  {
    OneFewer(s.entries, key);
  }

  lemma HitKept(w: World, w': World, key: CacheKey, k: CacheKey)
    requires key in w.state.entries && key in w.served && k in w.state.entries && EntryKept(w, k)
    requires w' == w.(served := w.served[key := w.served[key] + 1], state := Touched(w.state, key))
    ensures EntryKept(w', k)
  {
  }

  lemma HitBooked(w: World, w': World, key: CacheKey)
    requires Booked(w) && key in w.state.entries && key in w.served
    requires w' == w.(served := w.served[key := w.served[key] + 1], state := Touched(w.state, key))
    ensures Booked(w')
  {
    assert w'.state.entries.Keys == w.state.entries.Keys;
    HitEntriesKept(w, w', key);
    FailuresStay(w, w');
    assert |w'.state.entries| == |w.state.entries|;
  }

  lemma HitEntriesKept(w: World, w': World, key: CacheKey)
    requires EntriesKept(w) && key in w.state.entries && key in w.served
    requires w' == w.(served := w.served[key := w.served[key] + 1], state := Touched(w.state, key))
    ensures EntriesKept(w')
  {
    forall k | k in w'.state.entries ensures EntryKept(w', k) {
      assert EntryKept(w, k);
      HitKept(w, w', key, k);
    }
  }

  lemma LooksUpBooked(w: World, w': World)
    requires Booked(w) && LooksUp(w, w')
    ensures Booked(w')
  {
    var key, now, face: Slot -> bool, offer: Slot -> bool :|
      var (served, s') := w.state.Serves(key, now, face, offer);
      w' == Answered(w, key, served).(state := s');
    ServedBooked(w, w', key, now, face, offer);
  }

  lemma ServedBooked(w: World, w': World, key: CacheKey, now: Option<Time>, face: Slot -> bool, offer: Slot -> bool)
    requires Booked(w)
    requires var (served, s') := w.state.Serves(key, now, face, offer);
             w' == Answered(w, key, served).(state := s')
    ensures Booked(w')
  {
    ServeShape(w.state, key, now, face, offer);
    AnswerBooked(w, w', key, w.state.Serves(key, now, face, offer).0);
  }

  lemma AnswerBooked(w: World, w': World, key: CacheKey, served: Served)
    requires Booked(w) && w' == Answered(w, key, served).(state := w'.state)
    requires served.Hit? ==> key in w.state.entries && w'.state == Touched(w.state, key)
    requires !served.Hit? ==> w'.state == w.state || (key in w.state.entries && w'.state == w.state.Evict(key))
    ensures Booked(w')
  {
    if served.Hit? {
      assert EntryKept(w, key);
      HitBooked(w, w', key);
    } else {
      MissedBooked(w, w', key);
    }
  }

  lemma MissedBooked(w: World, w': World, key: CacheKey)
    requires Booked(w) && SameBooks(w, w')
    requires w'.state == w.state || (key in w.state.entries && w'.state == w.state.Evict(key))
    ensures Booked(w')
  {
    if key in w.state.entries {
      EvictLoses(w.state, key);
    }
    LosingBooked(w, w');
  }

  lemma DiscardsBooked(w: World, w': World)
    requires Booked(w) && Discards(w, w')
    ensures Booked(w')
  {
    var key, tick: nat :| w' == w.(state := w.state.Discards(key, tick));
    if key in w.state.entries {
      EvictLoses(w.state, key);
    }
    LosingBooked(w, w');
  }

  lemma LooksUpFailureBooked(w: World, w': World)
    requires Booked(w) && LooksUpFailure(w, w')
    ensures Booked(w')
  {
    var key, now, incoming :| w' == w.(state := w.state.ServesFailure(key, now, incoming).1);
    if key in w.state.failures {
      OneFewer(w.state.failures, key);
    }
    LosingBooked(w, w');
  }

  // The store appended is the last under its key, and the others are as last as they were.
  lemma LastStays(stores: seq<Store>, store: Store, key: CacheKey, n: nat)
    ensures LastUnder(stores + [store], store.c.key, |stores|)
    ensures key != store.c.key && LastUnder(stores, key, n) ==> LastUnder(stores + [store], key, n)
  {
  }

  // What is left of the residents after an accepted store: the one filed, as it was put down, and others
  // as they were.
  lemma FiledEntryKept(w: World, c: Candidate, kept: CacheState, w': World, k: CacheKey)
    requires Booked(w) && !c.representation.body.Once? && Culled(w.state.Ticked().Filed(c), kept)
    requires w' == Entered(w, c).(state := w'.state) && k in w'.state.entries
    requires w'.state.entries == kept.entries && w'.state.tick == w.state.tick + 1
    ensures EntryKept(w', k)
  {
    FiledOrOther(w.state, c, kept, k);
    if k == c.key {
      NewKept(w, c, w');
    } else {
      assert EntryKept(w, k);
      OtherKept(w, c, w', k);
    }
  }

  lemma FiledOrOther(s: CacheState, c: Candidate, kept: CacheState, k: CacheKey)
    requires Culled(s.Ticked().Filed(c), kept) && k in kept.entries
    ensures k == c.key ==> kept.entries[k] == s.Ticked().Entry(c)
    ensures k != c.key ==> k in s.entries && kept.entries[k] == s.entries[k]
  {
    assert k in kept.entries.Keys;
  }

  lemma NewKept(w: World, c: Candidate, w': World)
    requires !c.representation.body.Once? && w' == Entered(w, c).(state := w'.state)
    requires c.key in w'.state.entries && w'.state.entries[c.key] == w.state.Ticked().Entry(c)
    requires w'.state.tick == w.state.tick + 1
    ensures EntryKept(w', c.key)
  {
    LastStays(w.stores, Store(c, w.state.tick + 1), c.key, 0);
    FreshKept(w.state, c);
  }

  lemma OtherKept(w: World, c: Candidate, w': World, k: CacheKey)
    requires k in w.state.entries && EntryKept(w, k) && k != c.key && w' == Entered(w, c).(state := w'.state)
    requires k in w'.state.entries && w'.state.entries[k] == w.state.entries[k] && w'.state.tick == w.state.tick + 1
    ensures EntryKept(w', k)
  {
    LastStays(w.stores, Store(c, w.state.tick + 1), k, w.which[k]);
    assert w'.stores[w.which[k]] == w.stores[w.which[k]];
  }

  lemma FreshKept(s: CacheState, c: Candidate)
    requires !c.representation.body.Once?
    ensures Keeps(s.Ticked().Entry(c), Store(c, s.tick + 1), 0, s.tick + 1)
  {
    assert s.Ticked().Pins(c.representation.threads).Keys == c.representation.threads;
  }

  lemma FilingCounts(w: World, c: Candidate, kept: CacheState)
    requires Tallied(w) && Culled(w.state.Ticked().Filed(c), kept) && |w.stores| < WORD_MAX
    ensures kept.evictions + |kept.entries| + w.replaced + (if c.key in w.state.entries then 1 else 0) == |w.stores| + 1
  {
    var filed := w.state.Ticked().Filed(c);
    OneMoreOrSame(w.state.entries, c.key, w.state.Ticked().Entry(c));
    assert filed.evictions == w.state.evictions;
  }

  lemma OneMoreOrSame(entries: map<CacheKey, Slot>, key: CacheKey, slot: Slot)
    ensures |entries[key := slot]| + (if key in entries then 1 else 0) == |entries| + 1
  {
    assert entries[key := slot].Keys == entries.Keys + {key};
  }

  lemma FilingBooked(w: World, c: Candidate, kept: CacheState, limit: nat, w': World)
    requires Booked(w) && !c.representation.body.Once? && Culled(w.state.Ticked().Filed(c), kept)
    requires w' == Entered(w, c).(state := kept.Sweep(limit))
    ensures Booked(w')
  {
    FiledEntriesKept(w, c, kept, w');
    FiledFailuresKept(w, c, w');
    if |w.stores| < WORD_MAX {
      FilingCounts(w, c, kept);
    }
  }

  lemma FiledEntriesKept(w: World, c: Candidate, kept: CacheState, w': World)
    requires Booked(w) && !c.representation.body.Once? && Culled(w.state.Ticked().Filed(c), kept)
    requires w' == Entered(w, c).(state := w'.state)
    requires w'.state.entries == kept.entries && w'.state.tick == w.state.tick + 1
    ensures EntriesKept(w')
  {
    forall k | k in w'.state.entries ensures EntryKept(w', k) {
      FiledEntryKept(w, c, kept, w', k);
    }
  }

  lemma FiledFailuresKept(w: World, c: Candidate, w': World)
    requires FailuresKept(w) && w' == Entered(w, c).(state := w'.state)
    requires w'.state.failures == w.state.failures - {c.key}
    ensures FailuresKept(w')
  {
    FewerFailures(w.state.failures, c.key);
    forall k | k in w'.state.failures ensures FailureKept(w', k) {
      assert FailureKept(w, k);
    }
  }

  lemma FewerFailures(failures: map<CacheKey, FailedSlot>, key: CacheKey)
    ensures |failures - {key}| <= |failures|
  {
    if key in failures {
      OneFewer(failures, key);
    } else {
      assert failures - {key} == failures;
    }
  }

  lemma StoresEntryBooked(w: World, w': World)
    requires Booked(w) && StoresEntry(w, w')
    ensures Booked(w')
  {
    var c: Candidate, outcome: Result<(), Declined> :| StoresThis(w, c, outcome, w');
    if outcome.Err? {
      LosingBooked(w, w');
    } else {
      var kept, limit := Accepted(w.state, c, outcome, w'.state);
      FilingBooked(w, c, kept, limit, w');
    }
  }

  lemma StoresFailureBooked(w: World, w': World)
    requires Booked(w) && StoresFailure(w, w')
    ensures Booked(w')
  {
    var f: FailureCandidate, outcome: Result<(), Declined> :| FailsThis(w, f, outcome, w');
    if outcome.Ok? {
      FailingBooked(w, f, w');
    }
  }

  lemma FailingBooked(w: World, f: FailureCandidate, w': World)
    requires Booked(w) && w.state.StoresFailure(f, Ok(()), w'.state) && w' == Failed(w, f).(state := w'.state)
    ensures Booked(w')
  {
    var room: map<CacheKey, FailedSlot> :|
      w.state.MakesRoom(f.key, room) && w'.state == w.state.(failures := room[f.key := w.state.FailedEntry(f)]);
    FailureFiled(w, f, room, w');
    forall k | k in w'.state.entries ensures EntryKept(w', k) {
      assert EntryKept(w, k);
    }
  }

  lemma FailureFiled(w: World, f: FailureCandidate, room: map<CacheKey, FailedSlot>, w': World)
    requires FailuresKept(w) && w.state.MakesRoom(f.key, room) && w' == Failed(w, f).(state := w'.state)
    requires w'.state.failures == room[f.key := w.state.FailedEntry(f)]
    ensures FailuresKept(w')
  {
    RoomIsMade(w.state, f.key, room);
    RoomTaken(room, f.key, w.state.FailedEntry(f));
    forall k | k in w'.state.failures ensures FailureKept(w', k) {
      FiledFailureKept(w, f, room, w', k);
    }
  }

  lemma RoomTaken(room: map<CacheKey, FailedSlot>, key: CacheKey, slot: FailedSlot)
    ensures |room[key := slot]| == |room.Keys + {key}|
  {
    assert room[key := slot].Keys == room.Keys + {key};
  }

  lemma FiledFailureKept(w: World, f: FailureCandidate, room: map<CacheKey, FailedSlot>, w': World, k: CacheKey)
    requires FailuresKept(w) && w' == Failed(w, f).(state := w'.state) && k in w'.state.failures
    requires forall j | j in room :: j in w.state.failures && room[j] == w.state.failures[j]
    requires w'.state.failures == room[f.key := w.state.FailedEntry(f)]
    ensures FailureKept(w', k)
  {
    if k == f.key {
      assert w.state.Pins(f.threads).Keys == f.threads;
    } else {
      assert FailureKept(w, k);
    }
  }

  // Room is made by letting go of one failure at most, and of none that lapses later than another.
  lemma RoomIsMade(s: CacheState, key: CacheKey, room: map<CacheKey, FailedSlot>)
    requires |s.failures| <= CACHED_FAILURES && s.MakesRoom(key, room)
    ensures room.Keys <= s.failures.Keys && forall k | k in room :: room[k] == s.failures[k]
    ensures |room.Keys + {key}| <= CACHED_FAILURES
    ensures forall gone, k | gone in s.failures && gone !in room && k in s.failures ::
              s.failures[gone].until <= s.failures[k].until
  {
    if |s.failures| >= CACHED_FAILURES && key !in s.failures {
      var soonest :| soonest in s.failures && room == s.failures - {soonest}
                     && forall k | k in s.failures :: s.failures[soonest].until <= s.failures[k].until;
      OneFewer(s.failures, soonest);
    } else if key in s.failures {
      assert room.Keys + {key} == s.failures.Keys;
    }
  }

  lemma StepBooked(w: World, w': World)
    requires Booked(w) && Next(w, w')
    ensures Booked(w')
  {
    if StoresEntry(w, w') {
      StoresEntryBooked(w, w');
    } else if StoresFailure(w, w') {
      StoresFailureBooked(w, w');
    } else if LooksUp(w, w') {
      LooksUpBooked(w, w');
    } else if Discards(w, w') {
      DiscardsBooked(w, w');
    } else if LooksUpFailure(w, w') {
      LooksUpFailureBooked(w, w');
    } else {
      CuttingBooked(w, w');
    }
  }

  lemma CuttingBooked(w: World, w': World)
    requires Booked(w) && (Snaps(w, w') || RecordsCut(w, w') || Publishes(w, w'))
    ensures Booked(w')
  {
    LosingBooked(w, w');
  }

  // In every run: each resident is the last answer stored under its key, as it was stored and pinned to
  // its threads, answered as often as it counts; each failure is the last one under its key that no
  // answer came after; and no store is lost count of.
  lemma {:induction false} RunsBooked(run: seq<World>)
    requires IsRun(run)
    ensures forall w | w in run :: Booked(w)
  {
    var n := |run| - 1;
    if n == 0 {
      StartBooked();
    } else {
      ShorterRun(run);
      RunsBooked(run[..n]);
      assert run[n - 1] in run[..n] && StepAt(run, n - 1);
      StepBooked(run[n - 1], run[n]);
      forall w | w in run ensures Booked(w) {
        assert w in run[..n] || w == run[n];
      }
    }
  }

  lemma StartBooked()
    ensures Booked(START)
  {
  }

  // ---- when a lookup answers ----

  // No thread of the entry was cut since the snapshot it was stored under.
  ghost predicate Uncut(w: World, key: CacheKey)
    requires key in w.state.entries && key in w.origins && w.origins[key].taken <= |w.history|
  {
    forall t | t in w.state.entries[key].edges :: t !in w.history[w.origins[key].taken..]
  }

  predicate Ahead(expiry: Expiry, now: Option<Time>) {
    expiry.At? ==> now.Some? && now.value < expiry.deadline
  }

  // In every run, an entry is answered exactly when it is uncut, its deadline is ahead and the caller's
  // face takes it; it is offered exactly when it is uncut, past its deadline, carries a validator and
  // the caller takes the offer; and it leaves exactly when it is cut, or past its deadline without one.
  lemma ServedIff(run: seq<World>, w: World, key: CacheKey, now: Option<Time>, face: Slot -> bool, offer: Slot -> bool)
    requires IsRun(run) && w in run && key in w.state.entries
    ensures key in w.origins && w.origins[key].taken <= |w.history|
    ensures var slot := w.state.entries[key];
            var (served, end) := w.state.Serves(key, now, face, offer);
            var ahead := Ahead(slot.representation.expiry, now);
            && (served == Hit(slot) <==> Uncut(w, key) && ahead && face(slot))
            && (served == Offer(slot)
                <==> Uncut(w, key) && !ahead && slot.representation.validator.Some? && offer(slot))
            && (served == Miss || served == Hit(slot) || served == Offer(slot))
            && (key !in end.entries <==> !Uncut(w, key) || (!ahead && slot.representation.validator.None?))
  {
    LiveEntriesAreUncut(run, w, key, now);
  }

  // Nothing under another key is touched, and of the entry only the count of its answers and when it was
  // last used.
  lemma ServingTouchesOne(s: CacheState, key: CacheKey, now: Option<Time>, face: Slot -> bool, offer: Slot -> bool)
    ensures var (served, end) := s.Serves(key, now, face, offer);
            && (forall k | k != key ::
                  (k in end.entries <==> k in s.entries) && (k in s.entries ==> end.entries[k] == s.entries[k]))
            && (key in end.entries ==>
                  && key in s.entries
                  && end.entries[key] == (if served.Hit?
                                          then Touched(s, key).entries[key] else s.entries[key])
                  && end.entries[key].hits == s.entries[key].hits + (if served.Hit? then 1 else 0))
            && (key !in s.entries ==> served == Miss && end == s)
            && end.failures == s.failures && end.generations == s.generations && end.cuts == s.cuts
            && end.tick == s.tick + if served.Hit? then 1 else 0
  {
  }

  // The last accepted store under a resident's key.
  ghost function Given(w: World, key: CacheKey): Candidate
    requires key in w.which && w.which[key] < |w.stores|
  {
    w.stores[w.which[key]].c
  }

  ghost predicate UncutSince(w: World, threads: set<Thread>, taken: nat) {
    taken <= |w.history| && forall t | t in threads :: t !in w.history[taken..]
  }

  // So, in every run, a caller under `incoming` is answered exactly while the last answer stored under
  // the key is resident, none of its threads has been cut since its snapshot, its deadline is ahead and
  // it was stored under the same upstream; and what it gets is that answer. It is offered one likewise,
  // past its deadline.
  lemma LookupIff(run: seq<World>, w: World, key: CacheKey, now: Option<Time>, incoming: Option<Provenance>,
                  offering: bool)
    requires IsRun(run) && w in run && key in w.state.entries
    ensures key in w.which && LastUnder(w.stores, key, w.which[key])
    ensures var c, served := Given(w, key), w.state.Looks(key, now, incoming, offering).0;
            var standing := UncutSince(w, c.representation.threads, c.taken) && c.incoming == incoming;
            && (served.Hit? <==> standing && Ahead(c.representation.expiry, now))
            && (served.Offer? <==> offering && standing && !Ahead(c.representation.expiry, now)
                                   && c.representation.validator.Some?)
            && (served.Hit? ==> served.slot.representation == c.representation)
            && (served.Offer? ==> served.offered.representation == c.representation)
  {
    RunsBooked(run);
    assert EntryKept(w, key);
    ServedIff(run, w, key, now, Face(incoming), OfferFace(incoming, offering));
  }

  // A failure is answered exactly while it is kept, uncut since its snapshot, before it lapses and to
  // the upstream it was stored under; it is the last failure under its key, no answer having been stored
  // since, and it leaves exactly when it is cut or has lapsed.
  lemma FailureIff(run: seq<World>, w: World, key: CacheKey, now: Option<Time>, incoming: Option<Provenance>)
    requires IsRun(run) && w in run && key in w.state.failures
    ensures key in w.failed && w.failed[key].key == key
    ensures var f := w.failed[key];
            var (answer, end) := w.state.ServesFailure(key, now, incoming);
            var standing := UncutSince(w, f.threads, f.taken) && now.Some? && now.value < f.until;
            && (answer.Some? <==> standing && f.incoming == incoming)
            && (answer.Some? ==> answer.value.error == f.error && answer.value.until == f.until
                                 && answer.value.edges.Keys == f.threads)
            && end == w.state.(failures := if standing then w.state.failures else w.state.failures - {key})
  {
    RunsBooked(run);
    assert FailureKept(w, key);
    LiveFailuresAreUncut(run, w, key, now);
  }

  // No failure outlives an answer stored under its key.
  lemma AnswerEndsFailure(run: seq<World>, w: World, w': World, c: Candidate)
    requires IsRun(run) && w in run && StoresThis(w, c, Ok(()), w')
    ensures c.key !in w'.state.failures && w'.state.failures == w.state.failures - {c.key}
  {
    var kept, limit := Accepted(w.state, c, Ok(()), w'.state);
  }

  // ---- discarding an offer ----

  lemma {:induction false} StoresGrow(run: seq<World>, i: nat, j: nat)
    requires IsRun(run) && i <= j < |run|
    ensures run[i].stores <= run[j].stores
    decreases j - i
  {
    if i < j {
      StoresGrow(run, i, j - 1);
      assert StepAt(run, j - 1);
      StepStores(run[j - 1], run[j]);
      StorePrefix(run[i].stores, run[j - 1].stores, run[j].stores);
    }
  }

  lemma StorePrefix(a: seq<Store>, b: seq<Store>, c: seq<Store>)
    requires a <= b <= c
    ensures a <= c
  {
  }

  lemma StepStores(w: World, w': World)
    requires Next(w, w')
    ensures w.stores <= w'.stores
  {
    if StoresEntry(w, w') {
      StoresOne(w, w');
    } else if LooksUp(w, w') {
      LooksUpStores(w, w');
    } else if StoresFailure(w, w') {
      FailureStores(w, w');
    } else if Snaps(w, w') || RecordsCut(w, w') || Publishes(w, w') {
    } else {
      RemovingStores(w, w');
    }
  }

  lemma StoresOne(w: World, w': World)
    requires StoresEntry(w, w')
    ensures w.stores <= w'.stores
  {
    var c: Candidate, outcome: Result<(), Declined> :| StoresThis(w, c, outcome, w');
  }

  lemma LooksUpStores(w: World, w': World)
    requires LooksUp(w, w')
    ensures w'.stores == w.stores
  {
  }

  lemma FailureStores(w: World, w': World)
    requires StoresFailure(w, w')
    ensures w'.stores == w.stores
  {
  }

  lemma RemovingStores(w: World, w': World)
    requires Discards(w, w') || LooksUpFailure(w, w')
    ensures w'.stores == w.stores
  {
  }

  // The entry an offer was made from is discarded whenever it is still the one resident, and one stored
  // under the key since never is.
  lemma DiscardIff(run: seq<World>, i: nat, j: nat, key: CacheKey)
    requires IsRun(run) && i <= j < |run| && key in run[i].state.entries
    ensures key in run[i].which && (key in run[j].state.entries ==> key in run[j].which)
    ensures var s, tick := run[j].state, run[i].state.entries[key].storedTick;
            s.Discards(key, tick) == if key in s.entries && run[j].which[key] == run[i].which[key]
                                     then s.Evict(key) else s
  {
    RunsBooked(run);
    StoresGrow(run, i, j);
    var w, w' := run[i], run[j];
    assert w in run && w' in run;
    assert EntryKept(w, key);
    if key in w'.state.entries {
      assert EntryKept(w', key);
      var m, n := w.which[key], w'.which[key];
      assert w'.stores[m] == w.stores[m];
      TickedApart(w'.stores, w'.state.tick, m, n);
    }
  }

  lemma TickedApart(stores: seq<Store>, now: nat, m: nat, n: nat)
    requires Ticking(stores, now) && m < |stores| && n < |stores|
    ensures stores[m].tick == stores[n].tick <==> m == n
  {
    if m < n {
      assert stores[m].tick < stores[n].tick;
    } else if n < m {
      assert stores[n].tick < stores[m].tick;
    }
  }

  // ---- what a policy is shown ----

  // The facts of a resident are those of its answer: whose it is, its type and size, what it cost, how
  // often it has been answered, how many threads it hangs on, and when it was stored.
  lemma FactsAreTrue(run: seq<World>, w: World, key: CacheKey)
    requires IsRun(run) && w in run && key in w.state.entries
    ensures key in w.which && w.which[key] < |w.stores| && key in w.served
    ensures var c, facts := Given(w, key), w.state.entries[key].Facts(key.request);
            && facts.request == key.request && facts.target == c.target
            && facts.mediaType == c.representation.mediaType && facts.bytes == BodySize(c.representation.body)
            && facts.costMillis == c.costMillis && facts.hits == w.served[key]
            && facts.threads == |c.representation.threads| && facts.storedTick == w.stores[w.which[key]].tick
            && facts.storedTick <= facts.lastUsedTick
  {
    RunsBooked(run);
    assert EntryKept(w, key);
    assert |w.state.entries[key].edges| == |w.state.entries[key].edges.Keys|;
  }

  // A candidate is weighed by the facts its entry would have.
  lemma CandidateFactsAreTrue(s: CacheState, c: Candidate)
    ensures s.Ticked().CandidateFacts(c) == s.Ticked().Filed(c).entries[c.key].Facts(c.key.request)
  {
    var pins := s.Ticked().Pins(c.representation.threads);
    assert pins.Keys == c.representation.threads;
    assert |pins| == |pins.Keys|;
  }

  // The policy is asked to weigh a newcomer exactly when filing it would pass the bound, or when it
  // keeps a bound of its own for each partition.
  lemma ContestedIff(s: CacheState, policy: CachePolicy, c: Candidate)
    ensures s.Contested(policy, c) <==> c.key !in s.entries && (policy.partitioned || s.Filed(c).Over(policy.capacity))
  {
    if c.key !in s.entries {
      FiledNew(s, c);
    }
  }

  lemma FiledNew(s: CacheState, c: Candidate)
    requires c.key !in s.entries
    ensures |s.Filed(c).entries| == |s.entries| + 1
    ensures s.Filed(c).bytes == SatAdd(s.bytes, BodySize(c.representation.body))
  {
    assert s.Filed(c).entries.Keys == s.entries.Keys + {c.key};
  }

  // What a body counts against the bound: its length, when it is known and a word holds it.
  lemma BodySizeIs(len: nat)
    ensures BodySize(Buffer(len)) == BodySize(Replay(Some(len))) == if len < WORD_MAX then len else WORD_MAX
    ensures BodySize(Replay(None)) == BodySize(Once) == WORD_MAX
  {
  }

  // Nothing more is to go: within the bound, or the policy names nobody.
  ghost predicate Settled(s: CacheState, policy: CachePolicy, keys: seq<CacheKey>) {
    && Lists(keys, s.entries.Keys) && (forall k | k in keys :: k in s.entries)
    && var facts := s.FactsOf(keys);
       || (|s.entries| <= policy.capacity.maxEntries && s.bytes <= policy.capacity.maxBytes
           && !(policy.partitioned && policy.overPartition(facts)))
       || (match policy.victim(facts) case None => true case Some(index) => index >= |keys|)
  }

  // The eviction loop ends only there.
  lemma {:induction false} EnforcedSettles(s: CacheState, policy: CachePolicy, end: CacheState)
    requires s.Enforced(policy, end)
    ensures exists keys :: Settled(end, policy, keys)
    decreases |s.entries|
  {
    var keys :| Lists(keys, s.entries.Keys) && s.EnforcedBy(policy, keys, end);
    match s.Choice(policy, keys)
    case None => assert Settled(end, policy, keys);
    case Some(key) =>
      Shrinks(s.entries, key);
      EnforcedSettles(s.Evict(key), policy, end);
  }

  // And takes nothing from a cache that is there already.
  lemma WithinStays(s: CacheState, policy: CachePolicy, end: CacheState)
    requires s.Enforced(policy, end) && !s.Over(policy.capacity)
    requires policy.partitioned ==> forall resident :: !policy.overPartition(resident)
    ensures end == s
  {
  }

  // A sweep forgets the threads nothing pins, once more are remembered than the watermark, and no other.
  lemma SweepForgets(s: CacheState, limit: nat)
    ensures forall t :: t in s.Sweep(limit).generations
                        <==> t in s.generations
                             && (|s.generations| <= s.Watermark(limit)
                                 || t in PinnedBy(s.entries) + PinnedByFailures(s.failures))
    ensures |s.Sweep(limit).generations| <= s.Watermark(limit)
            || s.Sweep(limit).generations.Keys <= PinnedBy(s.entries) + PinnedByFailures(s.failures)
    ensures limit <= WORD_MAX ==> s.Watermark(limit) >= 1024 && s.Watermark(limit) >= limit
    ensures 1024 <= 2 * limit <= WORD_MAX ==> s.Watermark(limit) == 2 * limit
    ensures 2 * limit <= 1024 ==> s.Watermark(limit) == 1024
  {
  }
}
