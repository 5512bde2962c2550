// Where a measure stops and what it names there (crates/ikigai-core/src/declare.rs:205-252), stated of the places of
// the nodes in the order a rendering takes them.

module Places {
  import opened Wrappers
  import opened Text
  import opened ContractIris
  import opened Declarations

  // A node and the places of what it lies under, outermost first.
  datatype Place = Place(node: Topology, above: seq<nat>)

  // A node, then what it encloses.
  function Tree(node: Topology, at: nat, above: seq<nat>): seq<Place>
    decreases Size(node), 0
  {
    EnclosedSmaller(node);
    [Place(node, above)] + Forest(Encloses(node), at + 1, above + [at])
  }

  // Each tree in turn.
  function Forest(forest: seq<Topology>, at: nat, above: seq<nat>): seq<Place>
    decreases SizeOf(forest), 1
  {
    if forest == [] then []
    else
      var first := Tree(forest[0], at, above);
      first + Forest(forest[1..], at + |first|, above)
  }

  // ---- the names of the places ----

  // The first of the places `above`, of those before `i`, that is a named node met again.
  ghost function Outer(places: seq<Place>, above: seq<nat>, i: nat): Option<string>
    decreases i, 0, |above|
  {
    if above == [] then None
    else
      var outer, j := Outer(places, above[..|above| - 1], i), above[|above| - 1];
      if outer.None? && j < i && j < |places| && Again(places, j) then places[j].node.id else outer
  }

  // Under nothing met again.
  ghost predicate Open(places: seq<Place>, i: nat)
    requires i < |places|
    decreases i, 1, 0
  {
    Outer(places, places[i].above, i).None?
  }

  ghost predicate Again(places: seq<Place>, i: nat)
    requires i < |places|
    decreases i, 2, 0
  {
    && Open(places, i) && places[i].node.id.Some?
    && exists k | 0 <= k < i :: Open(places, k) && places[k].node.id == places[i].node.id
  }

  ghost predicate Mints(places: seq<Place>, i: nat) {
    i < |places| && places[i].node.id.None? && Open(places, i)
  }

  // The cells a rendering has minted by then.
  ghost function Unnamed(places: seq<Place>, n: nat): set<nat> { set k | 0 <= k < n && Mints(places, k) }

  ghost function NameOf(places: seq<Place>, i: nat): set<string>
    requires i < |places|
  {
    if places[i].node.id.Some? && Open(places, i) then {places[i].node.id.value} else {}
  }

  // The names it has given by then.
  ghost function Names(places: seq<Place>, n: nat): set<string>
    requires n <= |places|
  {
    if n == 0 then {} else Names(places, n - 1) + NameOf(places, n - 1)
  }

  // A node is named as what it lies under that is met again, by its own name, or by the number of its cell.
  ghost function NameAt(places: seq<Place>, i: nat): string
    requires i < |places|
  {
    match Outer(places, places[i].above, i)
    case Some(name) => name
    case None =>
      match places[i].node.id
      case Some(id) => id
      case None => SKOLEM_PREFIX + Decimal(|Unnamed(places, i + 1)|)
  }

  // ---- where a bound is passed ----

  function NodesTo(places: seq<Place>, n: nat): nat
    requires n <= |places|
  {
    if n == 0 then 0 else NodesTo(places, n - 1) + OwnNodes(places[n - 1].node)
  }

  function TextTo(places: seq<Place>, n: nat): nat
    requires n <= |places|
  {
    if n == 0 then 0 else TextTo(places, n - 1) + OwnText(places[n - 1].node)
  }

  // The depth is held first, then the nodes so far, then their text.
  predicate Passed(places: seq<Place>, i: nat, bound: Bound)
    requires i < |places|
  {
    var deep, many := |places[i].above| >= MAX_DEPTH, NodesTo(places, i + 1) > MAX_NODES;
    match bound
    case DepthBound => deep
    case NodesBound => !deep && many
    case TextBound => !deep && !many && TextTo(places, i + 1) > MAX_TEXT
  }

  predicate Clear(places: seq<Place>, i: nat)
    requires i < |places|
  {
    |places[i].above| < MAX_DEPTH && NodesTo(places, i + 1) <= MAX_NODES && TextTo(places, i + 1) <= MAX_TEXT
  }

  ghost predicate StopsAt(places: seq<Place>, from: nat, i: nat, error: TooLarge) {
    && from <= i < |places| && Passed(places, i, error.bound) && error.node == NameAt(places, i)
    && forall k | from <= k < i :: Clear(places, k)
  }

  // ---- the visit goes from place to place ----

  // What is left to list, with what each tree of it lies under.
  function Left(forest: seq<Topology>, aboves: seq<seq<nat>>, at: nat): seq<Place>
    requires |aboves| == |forest|
  {
    if forest == [] then []
    else
      var first := Tree(forest[0], at, aboves[0]);
      first + Left(forest[1..], aboves[1..], at + |first|)
  }

  function Under(n: nat, above: seq<nat>): seq<seq<nat>> { seq(n, _ => above) }

  lemma {:induction false} LeftJoins(forest: seq<Topology>, above: seq<nat>, rest: seq<Topology>,
                                     aboves: seq<seq<nat>>, at: nat)
    requires |aboves| == |rest|
    ensures var listed := Forest(forest, at, above);
            Left(forest + rest, Under(|forest|, above) + aboves, at) == listed + Left(rest, aboves, at + |listed|)
    decreases |forest|
  {
    if forest == [] {
      assert forest + rest == rest && Under(0, above) + aboves == aboves;
    } else {
      var first := Tree(forest[0], at, above);
      LeftJoins(forest[1..], above, rest, aboves, at + |first|);
      UnderJoins(forest, above, rest, aboves);
      LeftFirst(forest + rest, Under(|forest|, above) + aboves, at);
      var listed := Forest(forest[1..], at + |first|, above);
      assert first + (listed + Left(rest, aboves, at + |first| + |listed|))
             == first + listed + Left(rest, aboves, at + |first + listed|);
    }
  }

  lemma UnderJoins(forest: seq<Topology>, above: seq<nat>, rest: seq<Topology>, aboves: seq<seq<nat>>)
    requires forest != []
    ensures (forest + rest)[0] == forest[0] && (forest + rest)[1..] == forest[1..] + rest
    ensures (Under(|forest|, above) + aboves)[0] == above
    ensures (Under(|forest|, above) + aboves)[1..] == Under(|forest[1..]|, above) + aboves
  {
  }

  lemma LeftFirst(forest: seq<Topology>, aboves: seq<seq<nat>>, at: nat)
    requires forest != [] && |aboves| == |forest|
    ensures var first := Tree(forest[0], at, aboves[0]);
            Left(forest, aboves, at) == first + Left(forest[1..], aboves[1..], at + |first|)
  {
  }

  lemma LeftSteps(forest: seq<Topology>, aboves: seq<seq<nat>>, at: nat)
    requires forest != [] && |aboves| == |forest|
    ensures var under := Under(|Encloses(forest[0])|, aboves[0] + [at]);
            Left(forest, aboves, at)
            == [Place(forest[0], aboves[0])] + Left(Encloses(forest[0]) + forest[1..], under + aboves[1..], at + 1)
  {
    LeftFirst(forest, aboves, at);
    LeftJoins(Encloses(forest[0]), aboves[0] + [at], forest[1..], aboves[1..], at + 1);
  }

  predicate AllBefore(above: seq<nat>, i: nat) { forall k | 0 <= k < |above| :: above[k] < i }

  lemma {:induction false} OuterLater(places: seq<Place>, above: seq<nat>, i: nat)
    requires AllBefore(above, i)
    ensures Outer(places, above, i + 1) == Outer(places, above, i)
    decreases |above|
  {
    if above != [] {
      OuterLater(places, above[..|above| - 1], i);
    }
  }

  ghost predicate FrameAt(places: seq<Place>, i: nat, frame: Frame, above: seq<nat>) {
    frame.depth == |above| + 1 && AllBefore(above, i) && frame.again == Outer(places, above, i)
  }

  ghost predicate FramesAt(places: seq<Place>, i: nat, frames: seq<Frame>, aboves: seq<seq<nat>>) {
    |aboves| == |frames| && forall k | 0 <= k < |frames| :: FrameAt(places, i, frames[k], aboves[k])
  }

  // The first `i` places are behind, and `frames` are what is left.
  ghost predicate At(places: seq<Place>, i: nat, frames: seq<Frame>, aboves: seq<seq<nat>>, tally: Tally) {
    && i <= |places| && FramesAt(places, i, frames, aboves) && places[i..] == Left(NodesIn(frames), aboves, i)
    && TallyAt(places, i, tally) && tally.nodes <= MAX_NODES && tally.text <= MAX_TEXT
  }

  ghost predicate TallyAt(places: seq<Place>, i: nat, tally: Tally)
    requires i <= |places|
  {
    && tally.skolem == |Unnamed(places, i)| && tally.seen == Names(places, i)
    && tally.nodes == NodesTo(places, i) && tally.text == TextTo(places, i)
  }

  // The next place is that of the next frame.
  lemma NextPlace(places: seq<Place>, i: nat, frames: seq<Frame>, aboves: seq<seq<nat>>)
    requires frames != [] && i <= |places| && |aboves| == |frames|
    requires places[i..] == Left(NodesIn(frames), aboves, i)
    ensures i < |places| && places[i] == Place(frames[0].node, aboves[0])
    ensures var under := Under(|Encloses(frames[0].node)|, aboves[0] + [i]);
            places[i + 1..] == Left(Encloses(frames[0].node) + NodesIn(frames[1..]), under + aboves[1..], i + 1)
  {
    var forest := NodesIn(frames);
    LeftSteps(forest, aboves, i);
    assert forest[1..] == NodesIn(frames[1..]);
    assert places[i..][0] == places[i] && places[i..][1..] == places[i + 1..];
  }

  lemma NamesIt(places: seq<Place>, i: nat, frame: Frame, above: seq<nat>, tally: Tally)
    requires i < |places| && places[i] == Place(frame.node, above) && FrameAt(places, i, frame, above)
    requires TallyAt(places, i, tally)
    ensures Named(frame, tally).0 == NameAt(places, i)
    ensures Named(frame, tally).1 == Outer(places, above + [i], i + 1)
    ensures Counted(frame, tally).skolem == |Unnamed(places, i + 1)|
    ensures Counted(frame, tally).seen == Names(places, i + 1)
  {
    OuterLater(places, above, i);
    assert (above + [i])[..|above|] == above;
    OneMoreCell(places, i);
    assert Open(places, i) <==> frame.again.None?;
    if Open(places, i) && frame.node.id.Some? {
      NamedBefore(places, i, frame.node.id.value);
      assert Again(places, i) <==> frame.node.id.value in tally.seen;
    }
  }

  lemma OneMoreCell(places: seq<Place>, i: nat)
    requires i < |places|
    ensures |Unnamed(places, i + 1)| == |Unnamed(places, i)| + if Mints(places, i) then 1 else 0
  {
    var cells := Unnamed(places, i);
    assert Unnamed(places, i + 1) == if Mints(places, i) then cells + {i} else cells;
  }

  lemma {:induction false} NamedBefore(places: seq<Place>, i: nat, name: string)
    requires i <= |places|
    ensures name in Names(places, i)
            <==> exists k: nat | k < i :: Open(places, k) && places[k].node.id == Some(name)
  {
    if i > 0 {
      NamedBefore(places, i - 1, name);
    }
  }

  lemma GoesOn(places: seq<Place>, i: nat, frames: seq<Frame>, aboves: seq<seq<nat>>, tally: Tally)
    requires frames != [] && At(places, i, frames, aboves, tally) && i < |places| && Clear(places, i)
    ensures var under := Under(|Encloses(frames[0].node)|, aboves[0] + [i]);
            At(places, i + 1, Onward(frames, Named(frames[0], tally).1), under + aboves[1..],
               Charged(frames[0], Counted(frames[0], tally)))
  {
    var again := Named(frames[0], tally).1;
    NextPlace(places, i, frames, aboves);
    assert FrameAt(places, i, frames[0], aboves[0]);
    NamesIt(places, i, frames[0], aboves[0], tally);
    TallyGoesOn(places, i, frames[0], tally);
    FramesGoOn(places, i, frames, aboves, again);
  }

  lemma FramesGoOn(places: seq<Place>, i: nat, frames: seq<Frame>, aboves: seq<seq<nat>>, again: Option<string>)
    requires frames != [] && FramesAt(places, i, frames, aboves) && again == Outer(places, aboves[0] + [i], i + 1)
    ensures var node := frames[0].node;
            && FramesAt(places, i + 1, Onward(frames, again), Under(|Encloses(node)|, aboves[0] + [i]) + aboves[1..])
            && NodesIn(Onward(frames, again)) == Encloses(node) + NodesIn(frames[1..])
  {
    var node := frames[0].node;
    var below := FramesOf(Encloses(node), frames[0].depth + 1, again);
    assert FrameAt(places, i, frames[0], aboves[0]);
    assert NodesIn(below + frames[1..]) == Encloses(node) + NodesIn(frames[1..]);
    RestLater(places, i, frames, aboves);
    FramesJoin(places, i + 1, below, Under(|Encloses(node)|, aboves[0] + [i]), frames[1..], aboves[1..]);
  }

  lemma TallyGoesOn(places: seq<Place>, i: nat, frame: Frame, tally: Tally)
    requires i < |places| && TallyAt(places, i, tally) && places[i].node == frame.node && Clear(places, i)
    requires Counted(frame, tally).skolem == |Unnamed(places, i + 1)|
    requires Counted(frame, tally).seen == Names(places, i + 1)
    ensures var charged := Charged(frame, Counted(frame, tally));
            TallyAt(places, i + 1, charged) && charged.nodes <= MAX_NODES && charged.text <= MAX_TEXT
  {
  }

  lemma RestLater(places: seq<Place>, i: nat, frames: seq<Frame>, aboves: seq<seq<nat>>)
    requires frames != [] && FramesAt(places, i, frames, aboves)
    ensures FramesAt(places, i + 1, frames[1..], aboves[1..])
  {
    forall k | 0 <= k < |frames| - 1 ensures FrameAt(places, i + 1, frames[1..][k], aboves[1..][k]) {
      assert FrameAt(places, i, frames[k + 1], aboves[k + 1]);
      OuterLater(places, aboves[k + 1], i);
    }
  }

  lemma FramesJoin(places: seq<Place>, i: nat, a: seq<Frame>, x: seq<seq<nat>>, b: seq<Frame>, y: seq<seq<nat>>)
    requires FramesAt(places, i, a, x) && FramesAt(places, i, b, y)
    ensures FramesAt(places, i, a + b, x + y)
  {
  }

  // What a visit answers that has come to a place.
  ghost predicate Answers(places: seq<Place>, from: nat, r: Result<(), TooLarge>) {
    match r
    case Ok(_) => forall k | from <= k < |places| :: Clear(places, k)
    case Err(e) => Stopped(places, from, e)
  }

  ghost predicate Stopped(places: seq<Place>, from: nat, error: TooLarge) {
    exists k :: StopsAt(places, from, k, error)
  }

  lemma AnswersEarlier(places: seq<Place>, i: nat, r: Result<(), TooLarge>)
    requires i < |places| && Clear(places, i) && Answers(places, i + 1, r)
    ensures Answers(places, i, r)
  {
    if r.Err? {
      var k :| StopsAt(places, i + 1, k, r.error);
      assert StopsAt(places, i, k, r.error);
    }
  }

  // The place of the first frame is what stops the visit, or nothing there does.
  lemma StopsHere(places: seq<Place>, i: nat, frames: seq<Frame>, aboves: seq<seq<nat>>, tally: Tally)
    requires frames != [] && At(places, i, frames, aboves, tally)
    ensures i < |places|
    ensures Clear(places, i) ==>
              var (_, again) := Named(frames[0], tally);
              Visit(frames, tally) == Visit(Onward(frames, again), Charged(frames[0], Counted(frames[0], tally)))
    ensures !Clear(places, i) ==> Visit(frames, tally).Err? && StopsAt(places, i, i, Visit(frames, tally).error)
  {
    NextPlace(places, i, frames, aboves);
    assert FrameAt(places, i, frames[0], aboves[0]);
    NamesIt(places, i, frames[0], aboves[0], tally);
    VisitUnfolds(frames, tally, Charged(frames[0], Counted(frames[0], tally)));
  }

  // From any place on, the visit stops at the first that passes a bound, and says which and where.
  lemma {:induction false} VisitStops(places: seq<Place>, i: nat, frames: seq<Frame>, aboves: seq<seq<nat>>,
                                      tally: Tally)
    requires At(places, i, frames, aboves, tally)
    ensures Answers(places, i, Visit(frames, tally))
    decreases SizeOf(NodesIn(frames))
  {
    if frames == [] {
      assert |places[i..]| == 0;
    } else {
      StopsHere(places, i, frames, aboves, tally);
      if Clear(places, i) {
        var again, charged := Named(frames[0], tally).1, Charged(frames[0], Counted(frames[0], tally));
        var left := Onward(frames, again);
        GoesOn(places, i, frames, aboves, tally);
        FramesShrink(frames, again);
        VisitStops(places, i + 1, left, Under(|Encloses(frames[0].node)|, aboves[0] + [i]) + aboves[1..], charged);
        AnswersEarlier(places, i, Visit(left, charged));
      }
    }
  }

  lemma StopsOnce(places: seq<Place>, r: Result<(), TooLarge>, error: TooLarge)
    requires Answers(places, 0, r) && Stopped(places, 0, error)
    ensures r == Err(error)
  {
    var i :| StopsAt(places, 0, i, error);
    assert !Clear(places, i);
    var k :| StopsAt(places, 0, k, r.error);
    assert !Clear(places, k);
  }

  // So a tree is refused exactly at the first place, in the order a rendering takes them, that lies too
  // deep or up to which there are too many nodes or too much text, and by the name that place has there.
  lemma MeasureStops(tree: Topology, error: TooLarge)
    ensures Visit([Frame(tree, 1, None)], Tally(0, {}, 0, 0)) == Err(error) <==> Stopped(Tree(tree, 0, []), 0, error)
  {
    var frames, tally := [Frame(tree, 1, None)], Tally(0, {}, 0, 0);
    StartsThere(tree);
    VisitStops(Tree(tree, 0, []), 0, frames, [[]], tally);
    if Stopped(Tree(tree, 0, []), 0, error) {
      StopsOnce(Tree(tree, 0, []), Visit(frames, tally), error);
    }
  }

  lemma StartsThere(tree: Topology)
    ensures At(Tree(tree, 0, []), 0, [Frame(tree, 1, None)], [[]], Tally(0, {}, 0, 0))
  {
    var places, frames := Tree(tree, 0, []), [Frame(tree, 1, None)];
    assert NodesIn(frames) == [tree] && places[0..] == places;
    LeftFirst([tree], [[]], 0);
    assert Left([tree][1..], [[]][1..], |places|) == [] && places + [] == places;
    assert FrameAt(places, 0, frames[0], []);
  }
}
