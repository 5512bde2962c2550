// Safety of the representation cache over every run (crates/ikigai-core/src/cache.rs).
//
// A `World` is the cache together with what no field of it records: the whole history of
// cuts, which snapshots requests hold, the snapshot each resident was stored under, and every
// store there has been.
// Steps interleave freely, except that a cut holds the lock from recording to publishing,
// when only the lock-free snapshot may run. The policy is left out of the steps altogether:
// a store may lose any entries it likes, so what is proved holds under any policy, including
// one that changes its mind between two questions.

module CacheSafety {
  import opened Wrappers
  import opened Words
  import opened CacheEntries
  import opened Cache

  // Where a resident came from: the snapshot it was stored under, and how many cuts had
  // been recorded when it was filed.
  datatype Origin = Origin(taken: nat, filed: nat)

  // An accepted store, and its tick.
  datatype Store = Store(c: Candidate, tick: nat)

  // `which` is the last store under each key, `served` how often it has been answered since,
  // `replaced` how many entries a store under their own key took the place of, and `failed` the last
  // failure under each key that no store came after.
  datatype World = World(
    state: CacheState,
    history: seq<Thread>,
    published: nat,
    publishing: bool,
    issued: set<nat>,
    origins: map<CacheKey, Origin>,
    failureOrigins: map<CacheKey, Origin>,
    stores: seq<Store>,
    which: map<CacheKey, nat>,
    served: map<CacheKey, nat>,
    replaced: nat,
    failed: map<CacheKey, FailureCandidate>)

  const START := World(EMPTY, [], 0, false, {}, map[], map[], [], map[], map[], 0, map[])

  // ---- the steps ----

  // A request reads the published counter, at any moment.
  ghost predicate Snaps(w: World, w': World) {
    w' == w.(issued := w.issued + {w.published})
  }

  ghost predicate RecordsCut(w: World, w': World) {
    && !w.publishing
    && exists thread: Thread {:trigger w.state.RecordCut(thread)} ::
         w' == w.(state := w.state.RecordCut(thread), history := w.history + [thread], publishing := true)
  }

  ghost predicate Publishes(w: World, w': World) {
    w.publishing && w' == w.(published := w.state.seqno, publishing := false)
  }

  // `b` is `a` after some entries left: nothing else a lookup reads has moved.
  ghost predicate Culled(a: CacheState, b: CacheState) {
    && b.entries.Keys <= a.entries.Keys
    && (forall k | k in b.entries :: b.entries[k] == a.entries[k])
    && b == a.(entries := b.entries, bytes := b.bytes, evictions := b.evictions)
    && (a.evictions + |a.entries| <= WORD_MAX ==> b.evictions + |b.entries| == a.evictions + |a.entries|)
  }

  // What an accepted store puts down.
  ghost function Entered(w: World, c: Candidate): World {
    w.(origins := w.origins[c.key := Origin(c.taken, |w.history|)],
       stores := w.stores + [Store(c, w.state.tick + 1)],
       which := w.which[c.key := |w.stores|],
       served := w.served[c.key := 0],
       replaced := w.replaced + if c.key in w.state.entries then 1 else 0,
       failed := w.failed - {c.key})
  }

  ghost function Answered(w: World, key: CacheKey, served: Served): World {
    if served.Hit? && key in w.served then w.(served := w.served[key := w.served[key] + 1]) else w
  }

  // What a store does to the state under any policy whatsoever.
  ghost predicate StoresUnderAny(s: CacheState, c: Candidate, outcome: Result<(), Declined>, s': CacheState) {
    if c.representation.body.Once? then outcome.Err? && s' == s
    else if s.CutSince(c.representation.threads, c.taken) then outcome == Err(CutInFlight) && s' == s
    else if outcome.Err? then outcome == Err(ByPolicy) && s' == s.Ticked()
    else exists kept: CacheState, limit: nat ::
           Culled(s.Ticked().Filed(c), kept) && s' == kept.Sweep(limit)
  }

  ghost predicate StoresEntry(w: World, w': World) {
    && !w.publishing
    && exists c: Candidate, outcome: Result<(), Declined> :: StoresThis(w, c, outcome, w')
  }

  ghost predicate StoresThis(w: World, c: Candidate, outcome: Result<(), Declined>, w': World) {
    && c.taken in w.issued
    && StoresUnderAny(w.state, c, outcome, w'.state)
    && w' == (if outcome.Ok? then Entered(w, c) else w).(state := w'.state)
  }

  ghost predicate StoresFailure(w: World, w': World) {
    && !w.publishing
    && exists f: FailureCandidate, outcome: Result<(), Declined> :: FailsThis(w, f, outcome, w')
  }

  ghost predicate FailsThis(w: World, f: FailureCandidate, outcome: Result<(), Declined>, w': World) {
    && f.taken in w.issued
    && w.state.StoresFailure(f, outcome, w'.state)
    && w' == (if outcome.Ok? then Failed(w, f) else w).(state := w'.state)
  }

  ghost function Failed(w: World, f: FailureCandidate): World {
    w.(failureOrigins := w.failureOrigins[f.key := Origin(f.taken, |w.history|)], failed := w.failed[f.key := f])
  }

  ghost predicate LooksUp(w: World, w': World) {
    && !w.publishing
    && exists key, now, face: Slot -> bool, offer: Slot -> bool ::
         var (served, s') := w.state.Serves(key, now, face, offer);
         w' == Answered(w, key, served).(state := s')
  }

  ghost predicate Discards(w: World, w': World) {
    && !w.publishing
    && exists key, tick: nat :: w' == w.(state := w.state.Discards(key, tick))
  }

  ghost predicate LooksUpFailure(w: World, w': World) {
    && !w.publishing
    && exists key, now, incoming :: w' == w.(state := w.state.ServesFailure(key, now, incoming).1)
  }

  ghost predicate Next(w: World, w': World) {
    || Snaps(w, w') || RecordsCut(w, w') || Publishes(w, w') || StoresEntry(w, w')
    || StoresFailure(w, w') || LooksUp(w, w') || Discards(w, w') || LooksUpFailure(w, w')
  }

  ghost predicate IsRun(run: seq<World>) {
    && run != [] && run[0] == START
    && forall i | 0 <= i < |run| - 1 :: StepAt(run, i)
  }

  ghost predicate StepAt(run: seq<World>, i: nat)
    requires i + 1 < |run|
  {
    Next(run[i], run[i + 1])
  }

  // ---- the invariant ----

  // The bounded log is the tail of the history from the horizon on: all of it, or the last CUT_LOG.
  ghost predicate LogFaithful(s: CacheState, history: seq<Thread>) {
    && s.seqno == |history|
    && s.horizon + |s.cuts| == |history|
    && s.horizon == (if |history| <= CUT_LOG then 0 else |history| - CUT_LOG)
    && IsTail(s.cuts, history, s.horizon)
  }

  ghost predicate IsTail(cuts: seq<(Thread, nat)>, history: seq<Thread>, from: nat) {
    && from + |cuts| <= |history|
    && forall j | 0 <= j < |cuts| :: cuts[j] == (history[from + j], from + j + 1)
  }

  // Every pinned thread has moved on by exactly the cuts recorded since the pin was filed,
  // and none was recorded between the snapshot and the filing.
  ghost predicate Pinned(s: CacheState, history: seq<Thread>, edges: map<Thread, nat>, o: Origin) {
    && o.taken <= o.filed <= |history|
    && forall t | t in edges ::
         && s.GenerationOf(t) == edges[t] + multiset(history[o.filed..])[t]
         && t !in history[o.taken..o.filed]
  }

  ghost predicate EntriesPinned(w: World) {
    forall k | k in w.state.entries ::
      k in w.origins && Pinned(w.state, w.history, w.state.entries[k].edges, w.origins[k])
  }

  ghost predicate FailuresPinned(w: World) {
    forall k | k in w.state.failures ::
      k in w.failureOrigins && Pinned(w.state, w.history, w.state.failures[k].edges, w.failureOrigins[k])
  }

  ghost predicate SnapshotsPast(w: World) {
    && w.published <= |w.history|
    && (!w.publishing ==> w.published == |w.history|)
    && forall taken | taken in w.issued :: taken <= w.published
  }

  ghost predicate Inv(w: World) {
    LogFaithful(w.state, w.history) && SnapshotsPast(w) && EntriesPinned(w) && FailuresPinned(w)
  }

  // ---- the cut log ----

  lemma {:induction false} CutAfterIsHistory(cuts: seq<(Thread, nat)>, history: seq<Thread>, from: nat,
                                             threads: set<Thread>, taken: nat)
    requires IsTail(cuts, history, from) && from <= taken
    ensures CutAfter(cuts, threads, taken)
            <==> exists i :: taken <= i < from + |cuts| && history[i] in threads
  {
    if cuts != [] {
      var last := |cuts| - 1;
      assert cuts[last] == (history[from + last], from + last + 1);
      CutAfterIsHistory(cuts[..last], history, from, threads, taken);
    }
  }

  // The bounded log answers as the whole history would, unless the snapshot is too old to
  // tell, in which case it declines.
  lemma CutSinceIsExact(s: CacheState, history: seq<Thread>, threads: set<Thread>, taken: nat)
    requires LogFaithful(s, history)
    ensures s.CutSince(threads, taken)
            <==> threads != {} && (taken < s.horizon
                                   || exists i :: taken <= i < |history| && history[i] in threads)
  {
    if s.horizon <= taken {
      CutAfterIsHistory(s.cuts, history, s.horizon, threads, taken);
    }
  }

  lemma RecordCutKeepsLog(s: CacheState, history: seq<Thread>, thread: Thread)
    requires LogFaithful(s, history)
    ensures LogFaithful(s.RecordCut(thread), history + [thread])
  {
  }

  // ---- pins ----

  lemma RecordCutKeepsPin(s: CacheState, history: seq<Thread>, thread: Thread, edges: map<Thread, nat>, o: Origin)
    requires Pinned(s, history, edges, o)
    ensures Pinned(s.RecordCut(thread), history + [thread], edges, o)
  {
    var longer := history + [thread];
    assert longer[o.filed..] == history[o.filed..] + [thread];
    assert longer[o.taken..o.filed] == history[o.taken..o.filed];
  }

  // A pin reads nothing but generations, so what else moves does not matter.
  lemma PinReadsGenerations(s: CacheState, s': CacheState, history: seq<Thread>, edges: map<Thread, nat>, o: Origin)
    requires Pinned(s, history, edges, o)
    requires forall t | t in edges :: s'.GenerationOf(t) == s.GenerationOf(t)
    ensures Pinned(s', history, edges, o)
  {
  }

  // A fresh pin taken after a passed race check.
  lemma FreshPin(s: CacheState, history: seq<Thread>, threads: set<Thread>, taken: nat)
    requires LogFaithful(s, history) && taken <= |history|
    requires !s.CutSince(threads, taken)
    ensures Pinned(s, history, s.Pins(threads), Origin(taken, |history|))
  {
    CutSinceIsExact(s, history, threads, taken);
    assert history[|history|..] == [];
    forall t | t in threads
      ensures t !in history[taken..|history|]
    {
      assert forall j | 0 <= j < |history| - taken :: history[taken..|history|][j] == history[taken + j];
    }
  }

  // The sweep forgets no generation anything still pins.
  lemma SweepKeepsPins(s: CacheState, limit: nat)
    ensures forall k, t | k in s.entries && t in s.entries[k].edges ::
              s.Sweep(limit).GenerationOf(t) == s.GenerationOf(t)
    ensures forall k, t | k in s.failures && t in s.failures[k].edges ::
              s.Sweep(limit).GenerationOf(t) == s.GenerationOf(t)
  {
    forall k, t | k in s.entries && t in s.entries[k].edges
      ensures t in PinnedBy(s.entries)
    {
    }
    forall k, t | k in s.failures && t in s.failures[k].edges
      ensures t in PinnedByFailures(s.failures)
    {
    }
  }

  // An edge stands exactly when its thread has not been cut since the snapshot.
  lemma CurrentIffUncut(s: CacheState, history: seq<Thread>, edges: map<Thread, nat>, o: Origin)
    requires Pinned(s, history, edges, o)
    ensures s.EdgesCurrent(edges) <==> forall t | t in edges :: t !in history[o.taken..]
  {
    assert history[o.taken..] == history[o.taken..o.filed] + history[o.filed..];
    forall t | t in edges
      ensures s.GenerationOf(t) == edges[t] <==> t !in history[o.taken..]
    {
      assert t in history[o.filed..] <==> multiset(history[o.filed..])[t] > 0;
    }
  }

  // ---- every step keeps the invariant ----

  lemma RecordsCutKeeps(w: World, w': World)
    requires Inv(w) && RecordsCut(w, w')
    ensures Inv(w')
  {
    var thread :| w' == w.(state := w.state.RecordCut(thread), history := w.history + [thread], publishing := true);
    RecordCutKeepsLog(w.state, w.history, thread);
    forall k | k in w'.state.entries
      ensures k in w'.origins && Pinned(w'.state, w'.history, w'.state.entries[k].edges, w'.origins[k])
    {
      RecordCutKeepsPin(w.state, w.history, thread, w.state.entries[k].edges, w.origins[k]);
    }
    forall k | k in w'.state.failures
      ensures k in w'.failureOrigins && Pinned(w'.state, w'.history, w'.state.failures[k].edges, w'.failureOrigins[k])
    {
      RecordCutKeepsPin(w.state, w.history, thread, w.state.failures[k].edges, w.failureOrigins[k]);
    }
  }

  // Entries and failures only left, with the log and the generations as they were.
  ghost predicate OnlyLost(s: CacheState, s': CacheState) {
    && s'.generations == s.generations && s'.cuts == s.cuts && s'.horizon == s.horizon && s'.seqno == s.seqno
    && (forall k | k in s'.entries :: k in s.entries && s'.entries[k].edges == s.entries[k].edges)
    && (forall k | k in s'.failures :: k in s.failures && s'.failures[k] == s.failures[k])
  }

  // Nothing the invariant reads but the state has moved.
  ghost predicate SameCourse(w: World, w': World) {
    && w'.history == w.history && w'.published == w.published && w'.publishing == w.publishing
    && w'.issued == w.issued && w'.origins == w.origins && w'.failureOrigins == w.failureOrigins
  }

  lemma LosingKeeps(w: World, w': World)
    requires Inv(w) && OnlyLost(w.state, w'.state)
    requires SameCourse(w, w')
    ensures Inv(w')
  {
    forall k | k in w'.state.entries
      ensures k in w'.origins && Pinned(w'.state, w'.history, w'.state.entries[k].edges, w'.origins[k])
    {
      PinReadsGenerations(w.state, w'.state, w.history, w.state.entries[k].edges, w.origins[k]);
    }
    forall k | k in w'.state.failures
      ensures k in w'.failureOrigins && Pinned(w'.state, w'.history, w'.state.failures[k].edges, w'.failureOrigins[k])
    {
      PinReadsGenerations(w.state, w'.state, w.history, w.state.failures[k].edges, w.failureOrigins[k]);
    }
  }

  lemma StoresEntryKeeps(w: World, w': World)
    requires Inv(w) && StoresEntry(w, w')
    ensures Inv(w')
  {
    var c: Candidate, outcome: Result<(), Declined> :| StoresThis(w, c, outcome, w');
    if outcome.Err? {
      DeclinedLoses(w.state, c, outcome, w'.state);
      LosingKeeps(w, w');
    } else {
      var kept, limit := Accepted(w.state, c, outcome, w'.state);
      FilingKeeps(w, c, kept, limit, w');
    }
  }

  lemma DeclinedLoses(s: CacheState, c: Candidate, outcome: Result<(), Declined>, s': CacheState)
    requires StoresUnderAny(s, c, outcome, s') && outcome.Err?
    ensures OnlyLost(s, s')
  {
  }

  lemma Accepted(s: CacheState, c: Candidate, outcome: Result<(), Declined>, s': CacheState)
    returns (kept: CacheState, limit: nat)
    requires StoresUnderAny(s, c, outcome, s') && outcome.Ok?
    ensures !c.representation.body.Once? && !s.CutSince(c.representation.threads, c.taken)
    ensures Culled(s.Ticked().Filed(c), kept) && s' == kept.Sweep(limit)
  {
    kept, limit :| Culled(s.Ticked().Filed(c), kept) && s' == kept.Sweep(limit);
  }

  lemma FilingKeeps(w: World, c: Candidate, kept: CacheState, limit: nat, w': World)
    requires Inv(w) && c.taken in w.issued && !w.state.CutSince(c.representation.threads, c.taken)
    requires Culled(w.state.Ticked().Filed(c), kept)
    requires w' == Entered(w, c).(state := kept.Sweep(limit))
    ensures Inv(w')
  {
    FilingKeepsEntries(w, c, kept, limit, w');
    FilingKeepsFailures(w, c, kept, limit, w');
  }

  lemma FilingKeepsEntries(w: World, c: Candidate, kept: CacheState, limit: nat, w': World)
    requires Inv(w) && c.taken in w.issued && !w.state.CutSince(c.representation.threads, c.taken)
    requires Culled(w.state.Ticked().Filed(c), kept)
    requires w' == Entered(w, c).(state := kept.Sweep(limit))
    ensures EntriesPinned(w')
  {
    SweepKeepsPins(kept, limit);
    forall k | k in w'.state.entries
      ensures k in w'.origins && Pinned(w'.state, w'.history, w'.state.entries[k].edges, w'.origins[k])
    {
      FiledEntryPinned(w, c, kept, k);
      SweptPinned(w, kept, limit, kept.entries[k].edges, w'.origins[k]);
    }
  }

  lemma SweptPinned(w: World, kept: CacheState, limit: nat, edges: map<Thread, nat>, o: Origin)
    requires Pinned(w.state, w.history, edges, o) && kept.generations == w.state.generations
    requires forall t | t in edges :: kept.Sweep(limit).GenerationOf(t) == kept.GenerationOf(t)
    ensures Pinned(kept.Sweep(limit), w.history, edges, o)
  {
    PinReadsGenerations(w.state, kept.Sweep(limit), w.history, edges, o);
  }

  // The entry filed is pinned now; any other was pinned before.
  lemma FiledEntryPinned(w: World, c: Candidate, kept: CacheState, k: CacheKey)
    requires Inv(w) && c.taken in w.issued && !w.state.CutSince(c.representation.threads, c.taken)
    requires Culled(w.state.Ticked().Filed(c), kept) && k in kept.entries
    ensures var origins := w.origins[c.key := Origin(c.taken, |w.history|)];
            k in origins && Pinned(w.state, w.history, kept.entries[k].edges, origins[k])
  {
    assert k in kept.entries.Keys;
    if k == c.key {
      FreshPin(w.state, w.history, c.representation.threads, c.taken);
    }
  }

  lemma FilingKeepsFailures(w: World, c: Candidate, kept: CacheState, limit: nat, w': World)
    requires Inv(w)
    requires Culled(w.state.Ticked().Filed(c), kept)
    requires w' == Entered(w, c).(state := kept.Sweep(limit))
    ensures FailuresPinned(w')
  {
    SweepKeepsPins(kept, limit);
    forall k | k in w'.state.failures
      ensures k in w'.failureOrigins && Pinned(w'.state, w'.history, w'.state.failures[k].edges, w'.failureOrigins[k])
    {
      assert k in kept.failures && k in w.state.failures;
      SweptPinned(w, kept, limit, w.state.failures[k].edges, w.failureOrigins[k]);
    }
  }

  lemma StoresFailureKeeps(w: World, w': World)
    requires Inv(w) && StoresFailure(w, w')
    ensures Inv(w')
  {
    var f: FailureCandidate, outcome: Result<(), Declined> :| FailsThis(w, f, outcome, w');
    if outcome.Ok? {
      FailingKeeps(w, f, w');
    }
  }

  lemma FailingKeeps(w: World, f: FailureCandidate, w': World)
    requires Inv(w) && f.taken in w.issued && w.state.StoresFailure(f, Ok(()), w'.state)
    requires w' == Failed(w, f).(state := w'.state)
    ensures Inv(w')
  {
    var s' := w'.state;
    var room: map<CacheKey, FailedSlot> :|
      w.state.MakesRoom(f.key, room) && s' == w.state.(failures := room[f.key := w.state.FailedEntry(f)]);
    forall k | k in s'.failures
      ensures k in w'.failureOrigins && Pinned(s', w.history, s'.failures[k].edges, w'.failureOrigins[k])
    {
      FiledFailurePinned(w, f, room, k);
      PinReadsGenerations(w.state, s', w.history, s'.failures[k].edges, w'.failureOrigins[k]);
    }
    forall k | k in s'.entries
      ensures k in w'.origins && Pinned(s', w.history, s'.entries[k].edges, w'.origins[k])
    {
      PinReadsGenerations(w.state, s', w.history, s'.entries[k].edges, w'.origins[k]);
    }
  }

  lemma FiledFailurePinned(w: World, f: FailureCandidate, room: map<CacheKey, FailedSlot>, k: CacheKey)
    requires Inv(w) && f.taken in w.issued && !w.state.CutSince(f.threads, f.taken) && w.state.MakesRoom(f.key, room)
    requires k == f.key || k in room
    ensures var failures := room[f.key := w.state.FailedEntry(f)];
            var origins := w.failureOrigins[f.key := Origin(f.taken, |w.history|)];
            k in origins && Pinned(w.state, w.history, failures[k].edges, origins[k])
  {
    if k == f.key {
      FreshPin(w.state, w.history, f.threads, f.taken);
    }
  }

  lemma ServingOnlyLoses(s: CacheState, key: CacheKey, now: Option<Time>, face: Slot -> bool, offer: Slot -> bool)
    ensures OnlyLost(s, s.Serves(key, now, face, offer).1)
  {
  }

  lemma LooksUpKeeps(w: World, w': World)
    requires Inv(w) && LooksUp(w, w')
    ensures Inv(w')
  {
    var key, now, face: Slot -> bool, offer: Slot -> bool :|
      var (served, s') := w.state.Serves(key, now, face, offer);
      w' == Answered(w, key, served).(state := s');
    ServingOnlyLoses(w.state, key, now, face, offer);
    LosingKeeps(w, w');
  }

  lemma DiscardsKeeps(w: World, w': World)
    requires Inv(w) && Discards(w, w')
    ensures Inv(w')
  {
    var key, tick: nat :| w' == w.(state := w.state.Discards(key, tick));
    LosingKeeps(w, w');
  }

  lemma LooksUpFailureKeeps(w: World, w': World)
    requires Inv(w) && LooksUpFailure(w, w')
    ensures Inv(w')
  {
    var key, now, incoming :| w' == w.(state := w.state.ServesFailure(key, now, incoming).1);
    LosingKeeps(w, w');
  }

  lemma NextKeeps(w: World, w': World)
    requires Inv(w) && Next(w, w')
    ensures Inv(w')
  {
    if RecordsCut(w, w') {
      RecordsCutKeeps(w, w');
    } else if StoresEntry(w, w') {
      StoresEntryKeeps(w, w');
    } else if StoresFailure(w, w') {
      StoresFailureKeeps(w, w');
    } else if LooksUp(w, w') {
      LooksUpKeeps(w, w');
    } else if Discards(w, w') {
      DiscardsKeeps(w, w');
    } else if LooksUpFailure(w, w') {
      LooksUpFailureKeeps(w, w');
    }
  }

  lemma ShorterRun(run: seq<World>)
    requires IsRun(run) && |run| > 1
    ensures IsRun(run[..|run| - 1])
  {
    var front := run[..|run| - 1];
    forall i | 0 <= i < |front| - 1 ensures StepAt(front, i) {
      assert StepAt(run, i);
    }
  }

  lemma {:induction false} RunsKeep(run: seq<World>)
    requires IsRun(run)
    ensures forall w | w in run :: Inv(w)
  {
    var n := |run| - 1;
    if n > 0 {
      ShorterRun(run);
      RunsKeep(run[..n]);
      assert run[n - 1] in run[..n] && StepAt(run, n - 1);
      NextKeeps(run[n - 1], run[n]);
      forall w | w in run ensures Inv(w) {
        assert w in run[..n] || w == run[n];
      }
    }
  }

  // ---- the promises ----

  // In every run: an entry's threads all stand exactly when none of them was cut after the
  // snapshot it was stored under. So a live entry is never stale, and a stale verdict of
  // `Cut` always names a real cut.
  lemma LiveEntriesAreUncut(run: seq<World>, w: World, key: CacheKey, now: Option<Time>)
    requires IsRun(run) && w in run && key in w.state.entries
    ensures key in w.origins && w.origins[key].taken <= |w.history|
    ensures w.state.StateOf(w.state.entries[key], now).Cut?
            <==> exists t :: t in w.state.entries[key].edges && t in w.history[w.origins[key].taken..]
  {
    RunsKeep(run);
    CurrentIffUncut(w.state, w.history, w.state.entries[key].edges, w.origins[key]);
  }

  // The same for a failure.
  lemma LiveFailuresAreUncut(run: seq<World>, w: World, key: CacheKey, now: Option<Time>)
    requires IsRun(run) && w in run && key in w.state.failures
    ensures key in w.failureOrigins && w.failureOrigins[key].taken <= |w.history|
    ensures w.state.FailureState(w.state.failures[key], now).Cut?
            <==> exists t :: t in w.state.failures[key].edges && t in w.history[w.failureOrigins[key].taken..]
  {
    RunsKeep(run);
    CurrentIffUncut(w.state, w.history, w.state.failures[key].edges, w.failureOrigins[key]);
  }

  // In every run, nothing cut is ever handed out: neither as an answer, nor as an offer to
  // revalidate, whatever the face, the clock and the policy. An answer's deadline is ahead.
  lemma NothingCutIsServed(run: seq<World>, w: World, key: CacheKey, now: Option<Time>,
                           face: Slot -> bool, offer: Slot -> bool)
    requires IsRun(run) && w in run
    ensures match w.state.Serves(key, now, face, offer).0
            case Miss => true
            case Hit(slot) =>
              && key in w.origins && w.origins[key].taken <= |w.history|
              && (forall t | t in slot.edges :: t !in w.history[w.origins[key].taken..])
              && (slot.representation.expiry.At? ==> now.Some? && now.value < slot.representation.expiry.deadline)
            case Offer(slot) =>
              && key in w.origins && w.origins[key].taken <= |w.history|
              && (forall t | t in slot.edges :: t !in w.history[w.origins[key].taken..])
              && slot.representation.validator.Some?
  {
    if key in w.state.entries {
      LiveEntriesAreUncut(run, w, key, now);
    }
  }

  lemma NothingCutIsServedAsFailure(run: seq<World>, w: World, key: CacheKey, now: Option<Time>,
                                    incoming: Option<Provenance>)
    requires IsRun(run) && w in run
    requires w.state.ServesFailure(key, now, incoming).0.Some?
    ensures var slot := w.state.ServesFailure(key, now, incoming).0.value;
            && key in w.failureOrigins && w.failureOrigins[key].taken <= |w.history|
            && (forall t | t in slot.edges :: t !in w.history[w.failureOrigins[key].taken..])
            && now.Some? && now.value < slot.until
  {
    LiveFailuresAreUncut(run, w, key, now);
  }

  // Once an entry is cut it stays cut for as long as it is resident, whatever steps follow:
  // no sweep brings a generation back to the pinned value.
  lemma CutIsForever(run: seq<World>, i: nat, j: nat, key: CacheKey, now: Option<Time>)
    requires IsRun(run) && i <= j < |run|
    requires key in run[i].state.entries && key in run[j].state.entries
    requires key in run[i].origins && key in run[j].origins && run[i].origins[key] == run[j].origins[key]
    requires run[i].state.entries[key].edges == run[j].state.entries[key].edges
    requires run[i].state.StateOf(run[i].state.entries[key], now).Cut?
    ensures run[j].state.StateOf(run[j].state.entries[key], now).Cut?
  {
    HistoryGrows(run, i, j);
    assert run[i] in run && run[j] in run;
    LiveEntriesAreUncut(run, run[i], key, now);
    LiveEntriesAreUncut(run, run[j], key, now);
    var from := run[i].origins[key].taken;
    assert run[i].history[from..] <= run[j].history[from..];
  }

  lemma {:induction false} HistoryGrows(run: seq<World>, i: nat, j: nat)
    requires IsRun(run) && i <= j < |run|
    ensures run[i].history <= run[j].history
    decreases j - i
  {
    if i < j {
      HistoryGrows(run, i, j - 1);
      RunStepGrows(run, j - 1);
      PrefixTransitive(run[i].history, run[j - 1].history, run[j].history);
    }
  }

  lemma PrefixTransitive(a: seq<Thread>, b: seq<Thread>, c: seq<Thread>)
    requires a <= b <= c
    ensures a <= c
  {
  }

  lemma RunStepGrows(run: seq<World>, i: nat)
    requires IsRun(run) && i + 1 < |run|
    ensures run[i].history <= run[i + 1].history
  {
    assert StepAt(run, i);
    StepGrowsHistory(run[i], run[i + 1]);
  }

  lemma StepGrowsHistory(w: World, w': World)
    requires Next(w, w')
    ensures w.history <= w'.history
  {
  }

  // Which dependents a cut of `thread` names as invalidated by it: those pinned at the
  // generation the cut moved.
  predicate InvalidatedBy(after: CacheState, slot: Slot, thread: Thread) {
    thread in slot.edges && slot.edges[thread] == SatSub(after.GenerationOf(thread), 1)
  }

  // In every run, a cut's listeners are told an entry was invalidated exactly when no earlier
  // cut of that thread had already made it stale.
  lemma ListenersHearEachCutOnce(run: seq<World>, w: World, thread: Thread, key: CacheKey)
    requires IsRun(run) && w in run && key in w.state.entries && thread in w.state.entries[key].edges
    ensures key in w.origins && w.origins[key].taken <= |w.history|
    ensures InvalidatedBy(w.state.RecordCut(thread), w.state.entries[key], thread)
            <==> thread !in w.history[w.origins[key].taken..]
  {
    RunsKeep(run);
    var o := w.origins[key];
    assert w.history[o.taken..] == w.history[o.taken..o.filed] + w.history[o.filed..];
    assert thread in w.history[o.filed..] <==> multiset(w.history[o.filed..])[thread] > 0;
  }

  // The bounded log answers the race check as the whole history would, in every run.
  lemma RaceCheckIsExact(run: seq<World>, w: World, threads: set<Thread>, taken: nat)
    requires IsRun(run) && w in run
    ensures w.state.CutSince(threads, taken)
            <==> threads != {} && (taken < w.state.horizon
                                   || exists i :: taken <= i < |w.history| && w.history[i] in threads)
    ensures w.state.horizon == if |w.history| <= CUT_LOG then 0 else |w.history| - CUT_LOG
  {
    RunsKeep(run);
    CutSinceIsExact(w.state, w.history, threads, taken);
  }

  // ---- the object's operations are steps ----

  lemma {:induction false} EnforcedCulls(a: CacheState, policy: CachePolicy, b: CacheState)
    requires a.Enforced(policy, b)
    ensures Culled(a, b)
    decreases |a.entries|
  {
    var keys :| Lists(keys, a.entries.Keys) && a.EnforcedBy(policy, keys, b);
    var chosen := a.Choice(policy, keys);
    if chosen.Some? {
      OneFewer(a.entries, chosen.value);
      EnforcedCulls(a.Evict(chosen.value), policy, b);
    }
  }

  lemma OneFewer<K, V>(m: map<K, V>, key: K)
    requires key in m
    ensures |m - {key}| == |m| - 1
  {
    assert (m - {key}).Keys == m.Keys - {key};
  }

  // A store under a policy that keeps its mind is a store under any.
  lemma StoresIsAStep(s: CacheState, policy: CachePolicy, c: Candidate, outcome: Result<(), Declined>,
                      s': CacheState)
    requires s.Stores(policy, c, outcome, s')
    ensures StoresUnderAny(s, c, outcome, s')
  {
    if !c.representation.body.Once? && !s.CutSince(c.representation.threads, c.taken) && outcome.Ok? {
      var filed := s.Ticked().Filed(c);
      var kept: CacheState :| filed.Enforced(policy, kept) && s' == kept.Sweep(policy.capacity.maxEntries);
      EnforcedCulls(filed, policy, kept);
    }
  }
}
