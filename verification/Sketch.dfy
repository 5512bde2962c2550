// The frequency sketch behind the scan-resistant policy (crates/ikigai-core/src/cache.rs):
// count-min over one row of four-bit counters, aged by halving.

module Sketches {
  import opened Words
  import opened CacheEntries

  const MAX: nat := 15

  function Min(a: nat, b: nat): nat { if a <= b then a else b }

  predicate InRange(cells: seq<nat>, width: nat) {
    forall j | 0 <= j < |cells| :: cells[j] < width
  }

  // A request's counter in each row. The width is a power of two, so the source's mask is the
  // remainder by the width.
  function Cells(request: RequestId, width: nat): (cells: seq<nat>)
    requires width > 0
    ensures |cells| == 4 && InRange(cells, width)
  {
    var (a, b, c, d) := request.words;
    [a % width, b % width, c % width, d % width]
  }

  function Bump(count: nat): nat { Min(SatAdd(count, 1), MAX) }

  function BumpAll(counters: seq<nat>, cells: seq<nat>): (bumped: seq<nat>)
    requires InRange(cells, |counters|)
    ensures |bumped| == |counters|
    decreases cells
  {
    if cells == [] then counters
    else BumpAll(counters[cells[0] := Bump(counters[cells[0]])], cells[1..])
  }

  function Halve(counters: seq<nat>): (halved: seq<nat>)
    ensures |halved| == |counters|
  {
    seq(|counters|, i requires 0 <= i < |counters| => counters[i] / 2)
  }

  datatype SketchState = SketchState(counters: seq<nat>, additions: nat, sample: nat) {
    ghost predicate Valid() {
      |counters| > 0 && sample > 0 && additions < sample && forall i | 0 <= i < |counters| :: counters[i] <= MAX
    }

    function Estimate(request: RequestId): nat
      requires |counters| > 0
    {
      var cells := Cells(request, |counters|);
      Min(Min(counters[cells[0]], counters[cells[1]]), Min(counters[cells[2]], counters[cells[3]]))
    }

    function Increment(request: RequestId): (next: SketchState)
      requires |counters| > 0
      ensures |next.counters| == |counters| && next.sample == sample
    {
      var bumped := BumpAll(counters, Cells(request, |counters|));
      if additions + 1 >= sample then SketchState(Halve(bumped), 0, sample)
      else SketchState(bumped, additions + 1, sample)
    }
  }

  // A sketch of `width` zeroes, after counting every request of a history.
  function After(history: seq<RequestId>, width: nat, sample: nat): (sketch: SketchState)
    requires width > 0
    ensures |sketch.counters| == width && sketch.sample == sample
  {
    if history == [] then SketchState(seq(width, _ => 0), 0, sample)
    else After(history[..|history| - 1], width, sample).Increment(history[|history| - 1])
  }

  // How many of `n` increments came after the last halving, one of which every `sample` brings.
  function SinceHalving(n: nat, sample: nat): (since: nat)
    requires sample > 0
    ensures since < sample
  {
    if n == 0 || SinceHalving(n - 1, sample) + 1 >= sample then 0 else SinceHalving(n - 1, sample) + 1
  }

  // What a counter of one request's own would read: saturating, and halved whenever a sample
  // of the history is complete.
  function Aged(history: seq<RequestId>, request: RequestId, sample: nat): nat
    requires sample > 0
  {
    if history == [] then 0
    else
      var n := |history| - 1;
      var before := Aged(history[..n], request, sample);
      var counted := if history[n] == request then Bump(before) else before;
      if SinceHalving(|history|, sample) == 0 then counted / 2 else counted
  }

  lemma {:induction false} AdditionsCycle(history: seq<RequestId>, width: nat, sample: nat)
    requires width > 0 && sample > 0
    ensures After(history, width, sample).additions == SinceHalving(|history|, sample)
  {
    if history != [] {
      AdditionsCycle(history[..|history| - 1], width, sample);
    }
  }

  // Bumping raises no counter past the cap, lowers none, and raises every cell named.
  lemma {:induction false} BumpAllRaises(counters: seq<nat>, cells: seq<nat>)
    requires InRange(cells, |counters|)
    requires forall i | 0 <= i < |counters| :: counters[i] <= MAX
    ensures var bumped := BumpAll(counters, cells);
            && (forall i | 0 <= i < |counters| :: counters[i] <= bumped[i] <= MAX)
            && (forall j | 0 <= j < |cells| :: Bump(counters[cells[j]]) <= bumped[cells[j]])
            && (forall i | 0 <= i < |counters| && i !in cells :: bumped[i] == counters[i])
    decreases cells
  {
    if cells != [] {
      var once := counters[cells[0] := Bump(counters[cells[0]])];
      BumpAllRaises(once, cells[1..]);
    }
  }

  // A cell named once is bumped once.
  lemma {:induction false} BumpAllOnce(counters: seq<nat>, cells: seq<nat>, i: nat)
    requires InRange(cells, |counters|)
    requires i < |cells| && forall j | 0 <= j < |cells| && j != i :: cells[j] != cells[i]
    ensures BumpAll(counters, cells)[cells[i]] == Bump(counters[cells[i]])
    decreases cells
  {
    var once := counters[cells[0] := Bump(counters[cells[0]])];
    if i == 0 {
      BumpAllElsewhere(once, cells[1..], cells[0]);
    } else {
      BumpAllOnce(once, cells[1..], i - 1);
    }
  }

  lemma {:induction false} BumpAllElsewhere(counters: seq<nat>, cells: seq<nat>, at: nat)
    requires InRange(cells, |counters|)
    requires at < |counters| && at !in cells
    ensures BumpAll(counters, cells)[at] == counters[at]
    decreases cells
  {
    if cells != [] {
      BumpAllElsewhere(counters[cells[0] := Bump(counters[cells[0]])], cells[1..], at);
    }
  }

  // Counts collide upward, never downward: every counter of a request holds at least what a
  // counter of its own would, and never more than the cap.
  lemma {:induction false} CountersCover(history: seq<RequestId>, request: RequestId, width: nat, sample: nat)
    requires width > 0 && sample > 0
    ensures var sketch := After(history, width, sample);
            && sketch.Valid()
            && forall j | 0 <= j < 4 :: Aged(history, request, sample) <= sketch.counters[Cells(request, width)[j]]
  {
    AdditionsCycle(history, width, sample);
    if history != [] {
      var n := |history| - 1;
      var before := After(history[..n], width, sample);
      CountersCover(history[..n], request, width, sample);
      AdditionsCycle(history[..n], width, sample);
      BumpAllRaises(before.counters, Cells(history[n], width));
    }
  }

  lemma EstimateNeverUnder(history: seq<RequestId>, request: RequestId, width: nat, sample: nat)
    requires width > 0 && sample > 0
    ensures Aged(history, request, sample) <= After(history, width, sample).Estimate(request) <= MAX
  {
    CountersCover(history, request, width, sample);
  }

  // `i` is a row of the request's own: no other row of it, and no other request counted, uses
  // the same counter.
  ghost predicate Private(history: seq<RequestId>, request: RequestId, width: nat, i: nat)
    requires width > 0 && i < 4
  {
    var cells := Cells(request, width);
    && (forall j | 0 <= j < 4 && j != i :: cells[j] != cells[i])
    && (forall other | other in history && other != request :: cells[i] !in Cells(other, width))
  }

  lemma {:induction false} PrivateCounterExact(history: seq<RequestId>, request: RequestId, width: nat,
                                               sample: nat, i: nat)
    requires width > 0 && sample > 0 && i < 4 && Private(history, request, width, i)
    ensures After(history, width, sample).counters[Cells(request, width)[i]] == Aged(history, request, sample)
  {
    if history != [] {
      var n := |history| - 1;
      var cell := Cells(request, width)[i];
      var before := After(history[..n], width, sample);
      assert Private(history[..n], request, width, i);
      PrivateCounterExact(history[..n], request, width, sample, i);
      AdditionsCycle(history[..n], width, sample);
      if history[n] == request {
        BumpAllOnce(before.counters, Cells(request, width), i);
      } else {
        BumpAllElsewhere(before.counters, Cells(history[n], width), cell);
      }
    }
  }

  // With one row to itself, a request's estimate is exact.
  lemma EstimateExactWithPrivateRow(history: seq<RequestId>, request: RequestId, width: nat, sample: nat, i: nat)
    requires width > 0 && sample > 0 && i < 4 && Private(history, request, width, i)
    ensures After(history, width, sample).Estimate(request) == Aged(history, request, sample)
  {
    CountersCover(history, request, width, sample);
    PrivateCounterExact(history, request, width, sample, i);
  }

  // The sketch as the source's object, counting in place.
  class Sketch {
    const counters: array<nat>
    var additions: nat
    const sample: nat

    ghost function State(): SketchState
      reads this, counters
    {
      SketchState(counters[..], additions, sample)
    }

    constructor (maxEntries: nat)
      ensures fresh(counters) && State().Valid()
      ensures counters.Length == Width(maxEntries) && sample == Sample(maxEntries)
      ensures State() == After([], Width(maxEntries), Sample(maxEntries))
    {
      var width := Width(maxEntries);
      counters := new nat[width](_ => 0);
      additions := 0;
      sample := Sample(maxEntries);
      new;
      assert counters[..] == seq(width, _ => 0);
    }

    method Increment(request: RequestId)
      requires counters.Length > 0
      modifies this, counters
      ensures State() == old(State()).Increment(request)
    {
      var cells := Cells(request, counters.Length);
      ghost var was := counters[..];
      for row := 0 to 4
        invariant BumpAll(counters[..], cells[row..]) == BumpAll(was, cells)
        invariant additions == old(additions)
      {
        var cell := cells[row];
        assert cell in cells;
        ghost var before := counters[..];
        counters[cell] := Bump(counters[cell]);
        assert counters[..] == before[cell := Bump(before[cell])];
        assert cells[row..][1..] == cells[row + 1..];
      }
      assert cells[4..] == [];
      additions := additions + 1;
      if additions >= sample {
        ghost var bumped := counters[..];
        for i := 0 to counters.Length
          invariant forall j | 0 <= j < i :: counters[j] == bumped[j] / 2
          invariant forall j | i <= j < counters.Length :: counters[j] == bumped[j]
          invariant additions == old(additions) + 1
        {
          counters[i] := counters[i] / 2;
        }
        assert counters[..] == Halve(bumped);
        additions := 0;
      }
    }
  }

  function NextPowerOfTwo(n: nat, power: nat := 1): (p: nat)
    requires power > 0
    ensures p >= n && p >= power
    decreases n - power
  {
    if power >= n then power else NextPowerOfTwo(n, 2 * power)
  }

  function SatMul(a: nat, b: nat): nat { if a * b <= WORD_MAX then a * b else WORD_MAX }

  function Clamp(n: nat, lo: nat, hi: nat): nat
    requires lo <= hi
  {
    if n < lo then lo else if n > hi then hi else n
  }

  function Width(maxEntries: nat): (width: nat)
    ensures width >= 64
  {
    NextPowerOfTwo(Clamp(SatMul(maxEntries, 4), 64, 0x40_0000))
  }

  function Sample(maxEntries: nat): (sample: nat)
    ensures sample >= 64
  {
    var tenfold := SatMul(maxEntries, 10);
    if tenfold > 64 then tenfold else 64
  }
}
