// The in-memory content store (crates/ikigai-core/src/content_store.rs): content held while a handle
// on it lives, counted per holder and against a bound.
//
// A content id is an opaque text. Counts of handles are unbounded; byte counts are machine words.

module ContentStores {
  import opened Wrappers
  import opened Words
  import opened Capabilities

  type ContentId = string

  // Who a hold was taken for: nobody a capability can name, or one principal.
  datatype Holder = HostHeld | HeldFor(principal: string)

  // What is stored, and how many live handles each holder has.
  datatype Entry = Entry(body: string, size: nat, holders: map<Holder, nat>)

  datatype State = State(entries: map<ContentId, Entry>, held: nat)

  datatype Handle = Handle(id: ContentId, holder: Holder)

  datatype Refusal = NoValidator | OverBudget

  const EMPTY: State := State(map[], 0)

  // ---- what each operation does to the state ----

  function OneMore(holders: map<Holder, nat>, holder: Holder): map<Holder, nat> {
    holders[holder := if holder in holders then holders[holder] + 1 else 1]
  }

  function OneFewer(holders: map<Holder, nat>, holder: Holder): map<Holder, nat> {
    if holder !in holders then holders
    else if holders[holder] <= 1 then holders - {holder}
    else holders[holder := holders[holder] - 1]
  }

  function Held(state: State, maxBytes: nat, handle: Handle, size: nat, body: string): Result<State, Refusal> {
    if handle.id in state.entries then
      var entry := state.entries[handle.id];
      Ok(state.(entries := state.entries[handle.id := entry.(holders := OneMore(entry.holders, handle.holder))]))
    else
      var held := SatAdd(state.held, size);
      if held > maxBytes then Err(OverBudget)
      else Ok(State(state.entries[handle.id := Entry(body, size, map[handle.holder := 1])], held))
  }

  // A replay goes in under its validator and counts its length: without either it is refused.
  function HeldReplay(state: State, maxBytes: nat, holder: Holder, id: Option<ContentId>, size: Option<nat>,
                      body: string)
    : Result<State, Refusal>
  {
    if id.None? then Err(NoValidator)
    else if size.None? then Err(OverBudget)
    else Held(state, maxBytes, Handle(id.value, holder), size.value, body)
  }

  function Cloned(state: State, handle: Handle): State {
    if handle.id !in state.entries then state
    else
      var entry := state.entries[handle.id];
      state.(entries := state.entries[handle.id := entry.(holders := OneMore(entry.holders, handle.holder))])
  }

  function Dropped(state: State, handle: Handle): State {
    if handle.id !in state.entries then state
    else
      var entry := state.entries[handle.id];
      var left := OneFewer(entry.holders, handle.holder);
      if left == map[] then State(state.entries - {handle.id}, SatSub(state.held, entry.size))
      else state.(entries := state.entries[handle.id := entry.(holders := left)])
  }

  ghost function HolderOf(c: Capability, valid: string -> bool): Holder {
    match Principal(c, valid)
    case Some(principal) => HeldFor(principal)
    case None => HostHeld
  }

  ghost predicate Admits(holder: Holder, c: Capability, valid: string -> bool) {
    holder.HeldFor? && ActsAs(c, holder.principal, valid)
  }

  // What a capability reads under an id: content held for someone else is answered as if it were
  // not there.
  ghost function Read(state: State, id: ContentId, c: Capability, valid: string -> bool): Option<string> {
    if id !in state.entries then None
    else if c.Root? || exists holder | holder in state.entries[id].holders :: Admits(holder, c, valid)
    then Some(state.entries[id].body)
    else None
  }

  // ---- the store ----

  class MemoryContentStore {
    const maxBytes: nat
    var entries: map<ContentId, Entry>
    var held: nat

    constructor (maxBytes: nat)
      ensures this.maxBytes == maxBytes && Now() == EMPTY
    {
      this.maxBytes, entries, held := maxBytes, map[], 0;
    }

    function Now(): State
      reads this
    {
      State(entries, held)
    }

    method Hold(handle: Handle, size: nat, body: string) returns (r: Result<Handle, Refusal>)
      modifies this
      ensures match Held(old(Now()), maxBytes, handle, size, body)
              case Ok(state) => r == Ok(handle) && Now() == state
              case Err(e) => r == Err(e) && Now() == old(Now())
    {
      if handle.id in entries {
        var entry := entries[handle.id];
        var count := if handle.holder in entry.holders then entry.holders[handle.holder] else 0;
        entries := entries[handle.id := entry.(holders := entry.holders[handle.holder := count + 1])];
      } else {
        var sum := SatAdd(held, size);
        if sum > maxBytes {
          return Err(OverBudget);
        }
        held := sum;
        entries := entries[handle.id := Entry(body, size, map[handle.holder := 1])];
      }
      return Ok(handle);
    }

    method PutReplay(holder: Holder, id: Option<ContentId>, size: Option<nat>, body: string)
      returns (r: Result<Handle, Refusal>)
      modifies this
      ensures match HeldReplay(old(Now()), maxBytes, holder, id, size, body)
              case Ok(state) => id.Some? && r == Ok(Handle(id.value, holder)) && Now() == state
              case Err(e) => r == Err(e) && Now() == old(Now())
    {
      if id.None? {
        return Err(NoValidator);
      }
      if size.None? {
        return Err(OverBudget);
      }
      r := Hold(Handle(id.value, holder), size.value, body);
    }

    method CloneHandle(handle: Handle) returns (copy: Handle)
      modifies this
      ensures copy == handle && Now() == Cloned(old(Now()), handle)
    {
      if handle.id in entries {
        var entry := entries[handle.id];
        var count := if handle.holder in entry.holders then entry.holders[handle.holder] else 0;
        entries := entries[handle.id := entry.(holders := entry.holders[handle.holder := count + 1])];
      }
      return handle;
    }

    // A count of no handles is not one any operation leaves.
    predicate NoEmptyCounts()
      reads this
    {
      forall id | id in entries :: forall holder | holder in entries[id].holders :: entries[id].holders[holder] > 0
    }

    method DropHandle(handle: Handle)
      requires NoEmptyCounts()
      modifies this
      ensures Now() == Dropped(old(Now()), handle)
    {
      var release := false;
      if handle.id in entries {
        var entry := entries[handle.id];
        var holders := entry.holders;
        if handle.holder in holders {
          var count := holders[handle.holder] - 1;
          holders := if count == 0 then holders - {handle.holder} else holders[handle.holder := count];
        }
        release := holders == map[];
        entries := entries[handle.id := entry.(holders := holders)];
      }
      if release {
        var size := entries[handle.id].size;
        entries := entries - {handle.id};
        held := SatSub(held, size);
        assert entries == old(entries) - {handle.id};
      }
    }
  }
}

module ContentRuns {
  import opened Wrappers
  import opened Words
  import opened Capabilities
  import opened ContentStores

  // What a put offered.
  datatype Offered = Offered(body: string, size: nat)

  // The store with the handles that live, and with what the put that took each id in offered.
  datatype World = World(state: State, live: multiset<Handle>, taken: map<ContentId, Offered>)

  datatype Step =
    | Put(handle: Handle, size: nat, body: string)
    | PutReplay(holder: Holder, id: Option<ContentId>, length: Option<nat>, body: string)
    | CloneIt(handle: Handle)
    | DropIt(handle: Handle)

  // A size is a machine word, and only a handle that lives is cloned or dropped.
  ghost predicate Allowed(w: World, step: Step) {
    match step
    case Put(_, size, _) => size <= WORD_MAX
    case PutReplay(_, _, length, _) => length.Some? ==> length.value <= WORD_MAX
    case CloneIt(handle) => handle in w.live
    case DropIt(handle) => handle in w.live
  }

  ghost function Next(maxBytes: nat, w: World, step: Step): World {
    match step
    case Put(handle, size, body) =>
      (match Held(w.state, maxBytes, handle, size, body)
       case Ok(state) => PutIn(w, state, handle, Offered(body, size))
       case Err(_) => w)
    case PutReplay(holder, id, length, body) =>
      (match HeldReplay(w.state, maxBytes, holder, id, length, body)
       case Ok(state) => PutIn(w, state, Handle(id.value, holder), Offered(body, length.value))
       case Err(_) => w)
    case CloneIt(handle) => w.(state := Cloned(w.state, handle), live := w.live + multiset{handle})
    case DropIt(handle) => w.(state := Dropped(w.state, handle), live := w.live - multiset{handle})
  }

  // An accepted put: one more handle, and what it offered if nothing was held under the id.
  ghost function PutIn(w: World, state: State, handle: Handle, offered: Offered): World {
    World(state, w.live + multiset{handle},
          if handle.id in w.state.entries then w.taken else w.taken[handle.id := offered])
  }

  const START: World := World(EMPTY, multiset{}, map[])

  ghost function After(maxBytes: nat, steps: seq<Step>): World
    decreases |steps|
  {
    if steps == [] then START else Next(maxBytes, After(maxBytes, steps[..|steps| - 1]), steps[|steps| - 1])
  }

  ghost predicate AllAllowed(maxBytes: nat, steps: seq<Step>)
    decreases |steps|
  {
    steps == []
    || (AllAllowed(maxBytes, steps[..|steps| - 1])
        && Allowed(After(maxBytes, steps[..|steps| - 1]), steps[|steps| - 1]))
  }

  // Every step allowed where it is taken, leading to `w`.
  ghost predicate IsRun(maxBytes: nat, steps: seq<Step>, w: World) {
    AllAllowed(maxBytes, steps) && w == After(maxBytes, steps)
  }

  // ---- sums over what is resident ----

  ghost function Sizes(entries: map<ContentId, Entry>): map<ContentId, nat> {
    map id | id in entries :: entries[id].size
  }

  ghost function Total(sizes: map<ContentId, nat>): nat
    decreases |sizes|
  {
    if sizes == map[] then 0
    else
      var id :| id in sizes;
      sizes[id] + Total(sizes - {id})
  }

  lemma {:induction false} TotalWithout(sizes: map<ContentId, nat>, id: ContentId)
    requires id in sizes
    ensures Total(sizes) == sizes[id] + Total(sizes - {id})
    decreases |sizes|
  {
    var first :| first in sizes && Total(sizes) == sizes[first] + Total(sizes - {first});
    if first != id {
      TotalWithout(sizes - {first}, id);
      TotalWithout(sizes - {id}, first);
      assert sizes - {first} - {id} == sizes - {id} - {first};
    }
  }

  lemma TotalWith(sizes: map<ContentId, nat>, id: ContentId, size: nat)
    requires id !in sizes
    ensures Total(sizes[id := size]) == Total(sizes) + size
  {
    var more := sizes[id := size];
    TotalWithout(more, id);
    assert more - {id} == sizes;
  }

  ghost function Resident(w: World): nat { Total(Sizes(w.state.entries)) }

  // ---- what every run keeps ----

  // The count a holder has for an id.
  ghost function Count(state: State, handle: Handle): nat {
    if handle.id in state.entries && handle.holder in state.entries[handle.id].holders
    then state.entries[handle.id].holders[handle.holder] else 0
  }

  // Each count is the handles that live, none of them is nothing, and content without one is gone.
  ghost predicate Counted(w: World) {
    && (forall handle :: Count(w.state, handle) == w.live[handle])
    && (forall id | id in w.state.entries :: Live(w.state.entries[id].holders))
  }

  // Some holder, and a handle for each.
  ghost predicate Live(holders: map<Holder, nat>) {
    holders != map[] && forall holder | holder in holders :: holders[holder] > 0
  }

  // The bytes held never pass the bound, nor what is resident; below the largest word they are
  // exactly what is resident.
  ghost predicate Accounted(maxBytes: nat, w: World) {
    w.state.held <= maxBytes && w.state.held <= Resident(w) && (maxBytes < WORD_MAX ==> w.state.held == Resident(w))
  }

  lemma CountedPut(w: World, entry: Entry, handle: Handle)
    requires Counted(w) && handle.id in w.state.entries && entry == w.state.entries[handle.id]
    ensures var entries := w.state.entries[handle.id := entry.(holders := OneMore(entry.holders, handle.holder))];
            var after := w.(state := w.state.(entries := entries), live := w.live + multiset{handle});
            Counted(after) && Sizes(entries) == Sizes(w.state.entries)
  {
    var more := OneMore(entry.holders, handle.holder);
    var entries := w.state.entries[handle.id := entry.(holders := more)];
    var after := w.(state := w.state.(entries := entries), live := w.live + multiset{handle});
    forall other ensures Count(after.state, other) == after.live[other] {
      assert Count(w.state, other) == w.live[other];
    }
    assert handle.holder in more;
    assert Sizes(entries) == Sizes(w.state.entries);
  }

  lemma HeldKeeps(maxBytes: nat, w: World, handle: Handle, size: nat, body: string)
    requires Counted(w) && Accounted(maxBytes, w) && maxBytes <= WORD_MAX
    requires Held(w.state, maxBytes, handle, size, body).Ok?
    ensures var after := PutIn(w, Held(w.state, maxBytes, handle, size, body).value, handle, Offered(body, size));
            Counted(after) && Accounted(maxBytes, after)
  {
    if handle.id in w.state.entries {
      CountedPut(w, w.state.entries[handle.id], handle);
    } else {
      TakenInKeeps(maxBytes, w, handle, size, body);
    }
  }

  // Content nothing was held under.
  lemma TakenInKeeps(maxBytes: nat, w: World, handle: Handle, size: nat, body: string)
    requires Counted(w) && Accounted(maxBytes, w) && maxBytes <= WORD_MAX && handle.id !in w.state.entries
    requires Held(w.state, maxBytes, handle, size, body).Ok?
    ensures var after := PutIn(w, Held(w.state, maxBytes, handle, size, body).value, handle, Offered(body, size));
            Counted(after) && Accounted(maxBytes, after)
  {
    var after := PutIn(w, Held(w.state, maxBytes, handle, size, body).value, handle, Offered(body, size));
    TakenInCounted(w, after, handle, Entry(body, size, map[handle.holder := 1]));
    TakenInTotal(w.state.entries, handle.id, Entry(body, size, map[handle.holder := 1]));
  }

  lemma TakenInTotal(entries: map<ContentId, Entry>, id: ContentId, entry: Entry)
    requires id !in entries
    ensures Total(Sizes(entries[id := entry])) == Total(Sizes(entries)) + entry.size
  {
    assert Sizes(entries[id := entry]) == Sizes(entries)[id := entry.size];
    TotalWith(Sizes(entries), id, entry.size);
  }

  lemma TakenInCounted(w: World, after: World, handle: Handle, entry: Entry)
    requires Counted(w) && handle.id !in w.state.entries && entry.holders == map[handle.holder := 1]
    requires after.state.entries == w.state.entries[handle.id := entry] && after.live == w.live + multiset{handle}
    ensures Counted(after)
  {
    forall other ensures Count(after.state, other) == after.live[other] {
      assert Count(w.state, other) == w.live[other];
    }
    assert handle.holder in after.state.entries[handle.id].holders;
  }

  lemma DroppedCounts(w: World, handle: Handle)
    requires Counted(w) && handle in w.live
    ensures Counted(w.(state := Dropped(w.state, handle), live := w.live - multiset{handle}))
  {
    var after := w.(state := Dropped(w.state, handle), live := w.live - multiset{handle});
    assert Count(w.state, handle) == w.live[handle];
    var left := OneFewer(w.state.entries[handle.id].holders, handle.holder);
    forall other ensures Count(after.state, other) == after.live[other] {
      assert Count(w.state, other) == w.live[other];
      assert left == map[] ==> other.holder !in left;
    }
    forall id | id in after.state.entries ensures Live(after.state.entries[id].holders) {
      assert id in w.state.entries && Live(w.state.entries[id].holders);
    }
  }

  lemma DroppedAccounts(maxBytes: nat, w: World, handle: Handle)
    requires Accounted(maxBytes, w) && handle.id in w.state.entries
    ensures Accounted(maxBytes, w.(state := Dropped(w.state, handle), live := w.live - multiset{handle}))
  {
    var after := Dropped(w.state, handle);
    if handle.id in after.entries {
      assert Sizes(after.entries) == Sizes(w.state.entries);
    } else {
      TotalWithout(Sizes(w.state.entries), handle.id);
      assert Sizes(after.entries) == Sizes(w.state.entries) - {handle.id};
    }
  }

  lemma DroppedKeeps(maxBytes: nat, w: World, handle: Handle)
    requires Counted(w) && Accounted(maxBytes, w) && handle in w.live
    ensures var after := w.(state := Dropped(w.state, handle), live := w.live - multiset{handle});
            Counted(after) && Accounted(maxBytes, after)
  {
    assert Count(w.state, handle) == w.live[handle];
    DroppedCounts(w, handle);
    DroppedAccounts(maxBytes, w, handle);
  }

  lemma NextKeeps(maxBytes: nat, w: World, step: Step)
    requires Counted(w) && Accounted(maxBytes, w) && Allowed(w, step) && maxBytes <= WORD_MAX
    ensures Counted(Next(maxBytes, w, step)) && Accounted(maxBytes, Next(maxBytes, w, step))
  {
    match step
    case Put(handle, size, body) =>
      if Held(w.state, maxBytes, handle, size, body).Ok? {
        HeldKeeps(maxBytes, w, handle, size, body);
      }
    case PutReplay(holder, id, length, body) =>
      if HeldReplay(w.state, maxBytes, holder, id, length, body).Ok? {
        HeldKeeps(maxBytes, w, Handle(id.value, holder), length.value, body);
      }
    case CloneIt(handle) =>
      assert Count(w.state, handle) == w.live[handle];
      CountedPut(w, w.state.entries[handle.id], handle);
    case DropIt(handle) =>
      DroppedKeeps(maxBytes, w, handle);
  }

  // In every run each holder's count is its live handles.
  lemma {:induction false} RunsKeep(maxBytes: nat, steps: seq<Step>, w: World)
    requires IsRun(maxBytes, steps, w) && maxBytes <= WORD_MAX
    ensures Counted(w) && Accounted(maxBytes, w)
    decreases |steps|
  {
    if steps == [] {
      assert Sizes(w.state.entries) == map[];
    } else {
      var before := After(maxBytes, steps[..|steps| - 1]);
      RunsKeep(maxBytes, steps[..|steps| - 1], before);
      NextKeeps(maxBytes, before, steps[|steps| - 1]);
    }
  }

  // Content is resident exactly while some handle for it lives.
  lemma ResidentIffHandled(maxBytes: nat, steps: seq<Step>, w: World, id: ContentId)
    requires IsRun(maxBytes, steps, w) && maxBytes <= WORD_MAX
    ensures id in w.state.entries <==> exists holder :: Handle(id, holder) in w.live
  {
    RunsKeep(maxBytes, steps, w);
    if id in w.state.entries {
      var holder :| holder in w.state.entries[id].holders;
      assert Count(w.state, Handle(id, holder)) == w.live[Handle(id, holder)];
    }
    if holder :| Handle(id, holder) in w.live {
      assert Count(w.state, Handle(id, holder)) == w.live[Handle(id, holder)];
    }
  }

  // A capability that is not root reads an id exactly when a handle taken for its principal lives;
  // root reads whatever is resident.
  lemma ReadsIffHandled(maxBytes: nat, steps: seq<Step>, w: World, id: ContentId, c: Capability, valid: string -> bool)
    requires IsRun(maxBytes, steps, w) && maxBytes <= WORD_MAX
    ensures c.Root? ==> (Read(w.state, id, c, valid).Some? <==> exists holder :: Handle(id, holder) in w.live)
    ensures c.Scoped? ==>
              (Read(w.state, id, c, valid).Some?
               <==> Principal(c, valid).Some? && Handle(id, HeldFor(Principal(c, valid).value)) in w.live)
  {
    RunsKeep(maxBytes, steps, w);
    ResidentIffHandled(maxBytes, steps, w, id);
    if c.Scoped? && Principal(c, valid).Some? {
      var mine := HeldFor(Principal(c, valid).value);
      assert Count(w.state, Handle(id, mine)) == w.live[Handle(id, mine)];
      assert Admits(mine, c, valid);
    }
  }

  // Who delivers content reads it back exactly when its capability is root or names a principal.
  lemma DelivererReads(maxBytes: nat, steps: seq<Step>, w: World, c: Capability, id: ContentId, size: nat,
                       body: string, valid: string -> bool)
    requires IsRun(maxBytes, steps, w) && maxBytes <= WORD_MAX && size <= WORD_MAX
    requires Held(w.state, maxBytes, Handle(id, HolderOf(c, valid)), size, body).Ok?
    ensures var after := Next(maxBytes, w, Put(Handle(id, HolderOf(c, valid)), size, body));
            Read(after.state, id, c, valid).Some? <==> c.Root? || Principal(c, valid).Some?
  {
    var step := Put(Handle(id, HolderOf(c, valid)), size, body);
    var after := Next(maxBytes, w, step);
    RunGoesOn(maxBytes, steps, w, step);
    ReadsIffHandled(maxBytes, steps + [step], after, id, c, valid);
    assert Handle(id, HolderOf(c, valid)) in after.live;
  }

  // ---- what is read ----

  // Each content is what the put that took it in offered.
  ghost predicate Bodied(w: World) {
    forall id | id in w.state.entries ::
      id in w.taken && w.state.entries[id].body == w.taken[id].body && w.state.entries[id].size == w.taken[id].size
  }

  lemma {:induction false} RunsBodied(maxBytes: nat, steps: seq<Step>, w: World)
    requires IsRun(maxBytes, steps, w)
    ensures Bodied(w)
    decreases |steps|
  {
    if steps != [] {
      var n := |steps| - 1;
      RunsBodied(maxBytes, steps[..n], After(maxBytes, steps[..n]));
      NextBodied(maxBytes, After(maxBytes, steps[..n]), steps[n]);
    }
  }

  lemma NextBodied(maxBytes: nat, w: World, step: Step)
    requires Bodied(w)
    ensures Bodied(Next(maxBytes, w, step))
  {
  }

  // While content stays, what was offered for it stays what it was.
  lemma TakenStays(maxBytes: nat, w: World, step: Step, id: ContentId)
    requires id in w.state.entries && id in w.taken && id in Next(maxBytes, w, step).state.entries
    ensures id in Next(maxBytes, w, step).taken && Next(maxBytes, w, step).taken[id] == w.taken[id]
  {
  }

  // In every run, a read answers the body of the put that took the id in, whoever put it again since and
  // whatever was cloned and dropped.
  lemma ReadsWhatWasPut(maxBytes: nat, steps: seq<Step>, w: World, id: ContentId, c: Capability, valid: string -> bool)
    requires IsRun(maxBytes, steps, w)
    ensures Read(w.state, id, c, valid).Some? ==> id in w.taken && Read(w.state, id, c, valid) == Some(w.taken[id].body)
  {
    RunsBodied(maxBytes, steps, w);
  }

  // A put of an id nothing is held under is read back, by root, as it was offered.
  lemma FreshPutReadsBack(maxBytes: nat, w: World, handle: Handle, size: nat, body: string, valid: string -> bool)
    requires handle.id !in w.state.entries && Held(w.state, maxBytes, handle, size, body).Ok?
    ensures Read(Next(maxBytes, w, Put(handle, size, body)).state, handle.id, Capability.Root, valid) == Some(body)
  {
  }

  // A step that leaves an id resident leaves what root reads under it.
  lemma ReadStays(maxBytes: nat, w: World, step: Step, id: ContentId, valid: string -> bool)
    requires id in w.state.entries && id in Next(maxBytes, w, step).state.entries
    ensures Read(Next(maxBytes, w, step).state, id, Capability.Root, valid) == Read(w.state, id, Capability.Root, valid)
  {
  }

  // In every run below the largest word, a put is taken exactly when some handle for its id lives or its
  // size fits beside what is resident; and a refused one changes nothing.
  lemma PutTakenIff(maxBytes: nat, steps: seq<Step>, w: World, handle: Handle, size: nat, body: string)
    requires IsRun(maxBytes, steps, w) && maxBytes < WORD_MAX
    ensures Held(w.state, maxBytes, handle, size, body).Ok?
            <==> (exists holder :: Handle(handle.id, holder) in w.live) || Resident(w) + size <= maxBytes
    ensures Held(w.state, maxBytes, handle, size, body).Err? ==> Next(maxBytes, w, Put(handle, size, body)) == w
  {
    RunsKeep(maxBytes, steps, w);
    ResidentIffHandled(maxBytes, steps, w, handle.id);
  }

  // A replay is taken exactly when it has a validator and a length, and is then a put under its validator.
  lemma ReplayIsPut(maxBytes: nat, w: World, holder: Holder, id: Option<ContentId>, length: Option<nat>, body: string)
    ensures Next(maxBytes, w, PutReplay(holder, id, length, body))
         == if id.Some? && length.Some? then Next(maxBytes, w, Put(Handle(id.value, holder), length.value, body)) else w
    ensures HeldReplay(w.state, maxBytes, holder, id, length, body) == Err(NoValidator) <==> id.None?
  {
  }

  // The bytes held are exactly what is resident, and so within the bound, in every run, exactly when
  // the bound is below the largest word.
  lemma HeldExactIff(maxBytes: nat)
    requires maxBytes <= WORD_MAX
    ensures (forall steps, w :: IsRun(maxBytes, steps, w) ==> w.state.held == Resident(w) <= maxBytes)
            <==> maxBytes < WORD_MAX
  {
    if maxBytes < WORD_MAX {
      forall steps, w | IsRun(maxBytes, steps, w) ensures w.state.held == Resident(w) <= maxBytes {
        RunsKeep(maxBytes, steps, w);
      }
    } else {
      var steps, w := Overfull("a", "b");
      assert IsRun(maxBytes, steps, w);
    }
  }

  // At the largest word the sum saturates: one more byte is taken in and not counted.
  lemma Overfull(a: ContentId, b: ContentId) returns (steps: seq<Step>, w: World)
    requires a != b
    ensures IsRun(WORD_MAX, steps, w) && w.state.held < Resident(w) && Resident(w) > WORD_MAX
  {
    var first, second := Put(Handle(a, HostHeld), WORD_MAX, ""), Put(Handle(b, HostHeld), 1, "");
    var one := Next(WORD_MAX, START, first);
    w := Next(WORD_MAX, one, second);
    RunGoesOn(WORD_MAX, [], START, first);
    assert [] + [first] == [first];
    RunGoesOn(WORD_MAX, [first], one, second);
    steps := [first] + [second];
    assert Sizes(START.state.entries) == map[];
    PutTotal(START, Handle(a, HostHeld), WORD_MAX);
    PutTotal(one, Handle(b, HostHeld), 1);
  }

  lemma RunGoesOn(maxBytes: nat, steps: seq<Step>, w: World, step: Step)
    requires IsRun(maxBytes, steps, w) && Allowed(w, step)
    ensures IsRun(maxBytes, steps + [step], Next(maxBytes, w, step))
  {
    var all := steps + [step];
    assert all[..|all| - 1] == steps && all[|all| - 1] == step;
  }

  // New content adds its size to what is resident.
  lemma PutTotal(w: World, handle: Handle, size: nat)
    requires handle.id !in w.state.entries
    ensures Total(Sizes(w.state.entries[handle.id := Entry("", size, map[handle.holder := 1])])) == Resident(w) + size
  {
    TakenInTotal(w.state.entries, handle.id, Entry("", size, map[handle.holder := 1]));
  }
}
