// Declarations (crates/ikigai-core/src/declare.rs:143-295): the tree of spaces a declaration states,
// the running budget it is charged against, and the two checks that walk it with an explicit stack.

module Declarations {
  import opened Wrappers
  import opened Words
  import opened Text
  import opened Utf8
  import opened ContractIris

  const MAX_DEPTH: nat := 48
  const MAX_NODES: nat := 65536
  const MAX_TEXT: nat := 16 * 1024 * 1024

  const SKOLEM_PREFIX: string := "urn:ikigai:space:_:"

  datatype MatchKind = ExactDoor | PrefixDoor | TemplateDoor | CustomDoor

  datatype InputNode = InputNode(
    name: string, summary: string, required: bool, class_: Option<string>, default: Option<string>, oneOf: seq<string>)

  // An alias rule; each fixed argument is its name and its value as written.
  datatype RuleNode = RuleNode(
    prefix: bool, from: string, to: string, atRoot: bool, template: bool, verb: Option<Verb>,
    fixes: seq<(string, string)>, inputs: seq<InputNode>)

  datatype Door = Door(
    pattern: string, kind: MatchKind, endpoint: string, confined: Option<Topology>, existenceSensitive: bool)

  datatype SpaceKind =
    | Opaque
    | EndpointSpace(doors: seq<Door>)
    | Fallback
    | Mount(prefix: string)
    | Rewrite
    | Alias(rules: seq<RuleNode>, maxHops: nat)
    | Limit(family: string, kind: MatchKind)
    | Confine
    | Level(seals: seq<string>, namespace_: Option<string>)
    | Dynamic(declaration: string)
    | Chain(severed: bool)

  datatype Topology = Topology(id: Option<string>, kind: SpaceKind, children: seq<Topology>)

  // ---- what a node encloses ----

  function Corridors(doors: seq<Door>): seq<Topology> {
    if doors == [] then []
    else (if doors[0].confined.Some? then [doors[0].confined.value] else []) + Corridors(doors[1..])
  }

  // Its children, then each door's corridor in door order: the order a rendering takes them in.
  function Encloses(node: Topology): seq<Topology> {
    node.children + if node.kind.EndpointSpace? then Corridors(node.kind.doors) else []
  }

  function Size(node: Topology): nat
    decreases node, 1
  {
    1 + SizeOf(node.children) + if node.kind.EndpointSpace? then SizeOfDoors(node.kind.doors) else 0
  }

  // The nodes in some trees, each counted wherever it stands.
  function SizeOf(forest: seq<Topology>): nat
    decreases forest, 0
  {
    if forest == [] then 0 else Size(forest[0]) + SizeOf(forest[1..])
  }

  function SizeOfDoors(doors: seq<Door>): nat
    decreases doors, 0
  {
    if doors == [] then 0
    else (if doors[0].confined.Some? then Size(doors[0].confined.value) else 0) + SizeOfDoors(doors[1..])
  }

  lemma {:induction false} SizeOfConcat(a: seq<Topology>, b: seq<Topology>)
    ensures SizeOf(a + b) == SizeOf(a) + SizeOf(b)
  {
    if a == [] {
      assert a + b == b;
    } else {
      assert (a + b)[1..] == a[1..] + b;
      SizeOfConcat(a[1..], b);
    }
  }

  lemma {:induction false} CorridorsSize(doors: seq<Door>)
    ensures SizeOf(Corridors(doors)) == SizeOfDoors(doors)
  {
    if doors != [] {
      CorridorsSize(doors[1..]);
      var first := if doors[0].confined.Some? then [doors[0].confined.value] else [];
      SizeOfConcat(first, Corridors(doors[1..]));
      assert first != [] ==> first[1..] == [];
    }
  }

  // A node is larger than all it encloses together.
  lemma EnclosedSmaller(node: Topology)
    ensures Size(node) == 1 + SizeOf(Encloses(node))
  {
    if node.kind.EndpointSpace? {
      CorridorsSize(node.kind.doors);
      SizeOfConcat(node.children, Corridors(node.kind.doors));
    } else {
      assert node.children + [] == node.children;
    }
  }

  // ---- the size of a declaration, by recursion ----

  function TextSize(s: string): nat { |Encode(s)| }

  function SumText(texts: seq<string>): nat {
    if texts == [] then 0 else TextSize(texts[0]) + SumText(texts[1..])
  }

  function OptText(text: Option<string>): nat { if text.Some? then TextSize(text.value) else 0 }

  function DoorsText(doors: seq<Door>): nat {
    if doors == [] then 0 else TextSize(doors[0].pattern) + TextSize(doors[0].endpoint) + DoorsText(doors[1..])
  }

  function FixesText(fixes: seq<(string, string)>): nat {
    if fixes == [] then 0 else TextSize(fixes[0].0) + TextSize(fixes[0].1) + FixesText(fixes[1..])
  }

  function InputText(input: InputNode): nat {
    TextSize(input.name) + TextSize(input.summary) + OptText(input.class_) + OptText(input.default)
      + SumText(input.oneOf)
  }

  function InputsText(inputs: seq<InputNode>): nat {
    if inputs == [] then 0 else InputText(inputs[0]) + InputsText(inputs[1..])
  }

  function RuleText(rule: RuleNode): nat {
    TextSize(rule.from) + TextSize(rule.to) + FixesText(rule.fixes) + InputsText(rule.inputs)
  }

  function RulesText(rules: seq<RuleNode>): nat {
    if rules == [] then 0 else RuleText(rules[0]) + RulesText(rules[1..])
  }

  function RulesNodes(rules: seq<RuleNode>): nat {
    if rules == [] then 0 else 1 + |rules[0].fixes| + |rules[0].inputs| + RulesNodes(rules[1..])
  }

  // A node's own share: itself, its doors and its rules, with their arguments and inputs.
  function OwnNodes(node: Topology): nat {
    1 + match node.kind
        case EndpointSpace(doors) => |doors|
        case Alias(rules, _) => RulesNodes(rules)
        case _ => 0
  }

  // And the text they carry.
  function OwnText(node: Topology): nat {
    OptText(node.id)
    + match node.kind
      case EndpointSpace(doors) => DoorsText(doors)
      case Alias(rules, _) => RulesText(rules)
      case Mount(prefix) => TextSize(prefix)
      case Limit(family, _) => TextSize(family)
      case Dynamic(declaration) => TextSize(declaration)
      case Level(seals, space) => SumText(seals) + OptText(space)
      case _ => 0
  }

  function Nodes(forest: seq<Topology>): nat
    decreases SizeOf(forest)
  {
    if forest == [] then 0
    else
      EnclosedSmaller(forest[0]);
      OwnNodes(forest[0]) + Nodes(Encloses(forest[0])) + Nodes(forest[1..])
  }

  function TextOf(forest: seq<Topology>): nat
    decreases SizeOf(forest)
  {
    if forest == [] then 0
    else
      EnclosedSmaller(forest[0]);
      OwnText(forest[0]) + TextOf(Encloses(forest[0])) + TextOf(forest[1..])
  }

  function Max(a: nat, b: nat): nat { if a < b then b else a }

  // How deep some trees nest: none is 0, a leaf 1.
  function Depth(forest: seq<Topology>): nat
    decreases SizeOf(forest)
  {
    if forest == [] then 0
    else
      EnclosedSmaller(forest[0]);
      Max(1 + Depth(Encloses(forest[0])), Depth(forest[1..]))
  }

  // A tree within the three bounds.
  predicate Bounded(tree: Topology) {
    Depth([tree]) <= MAX_DEPTH && Nodes([tree]) <= MAX_NODES && TextOf([tree]) <= MAX_TEXT
  }

  // ---- the budget ----

  datatype Bound = DepthBound | NodesBound | TextBound

  datatype TooLarge = TooLarge(bound: Bound, node: string)

  class Budget {
    var nodes: nat
    var text: nat

    constructor ()
      ensures nodes == 0 && text == 0
    {
      nodes, text := 0, 0;
    }

    // Charge a node's own share, refusing at `at` once a bound is passed.
    method Charge(node: Topology, at: string) returns (r: Result<(), TooLarge>)
      modifies this
      ensures nodes == SatAdd(old(nodes), OwnNodes(node)) && text == SatAdd(old(text), OwnText(node))
      ensures r == if nodes > MAX_NODES then Err(TooLarge(NodesBound, at))
                   else if text > MAX_TEXT then Err(TooLarge(TextBound, at)) else Ok(())
    {
      var ownNodes, ownText := 1, OptText(node.id);
      match node.kind {
        case EndpointSpace(doors) =>
          ownNodes := ownNodes + |doors|;
          ownText := ownText + DoorsText(doors);
        case Alias(rules, _) =>
          assert rules[0..] == rules;
          for k := 0 to |rules|
            invariant ownNodes + RulesNodes(rules[k..]) == 1 + RulesNodes(rules)
            invariant ownText + RulesText(rules[k..]) == OptText(node.id) + RulesText(rules)
          {
            assert rules[k..][1..] == rules[k + 1..];
            var rule := rules[k];
            ownNodes := ownNodes + 1 + |rule.fixes| + |rule.inputs|;
            ownText := ownText + TextSize(rule.from) + TextSize(rule.to) + FixesText(rule.fixes)
              + InputsText(rule.inputs);
          }
        case Mount(prefix) =>
          ownText := ownText + TextSize(prefix);
        case Limit(family, _) =>
          ownText := ownText + TextSize(family);
        case Dynamic(declaration) =>
          ownText := ownText + TextSize(declaration);
        case Level(seals, space) =>
          ownText := ownText + SumText(seals) + OptText(space);
        case _ =>
      }
      nodes := SatAdd(nodes, ownNodes);
      text := SatAdd(text, ownText);
      return if nodes > MAX_NODES then Err(TooLarge(NodesBound, at))
             else if text > MAX_TEXT then Err(TooLarge(TextBound, at))
             else Ok(());
    }
  }

  // ---- the measure ----

  // A node to visit, its depth, and the named node met again that it lies under.
  datatype Frame = Frame(node: Topology, depth: nat, again: Option<string>)

  // What a visit carries from node to node.
  datatype Tally = Tally(skolem: nat, seen: set<string>, nodes: nat, text: nat)

  // How a visited node is named, and what it lies under for what it encloses.
  function Named(frame: Frame, tally: Tally): (string, Option<string>) {
    if frame.again.Some? then (frame.again.value, frame.again)
    else
      match frame.node.id
      case Some(id) => (id, if id in tally.seen then Some(id) else None)
      case None => (SKOLEM_PREFIX + Decimal(tally.skolem + 1), None)
  }

  function Counted(frame: Frame, tally: Tally): Tally {
    if frame.again.Some? then tally
    else
      match frame.node.id
      case Some(id) => tally.(seen := tally.seen + {id})
      case None => tally.(skolem := tally.skolem + 1)
  }

  function Charged(frame: Frame, tally: Tally): Tally {
    tally.(nodes := SatAdd(tally.nodes, OwnNodes(frame.node)), text := SatAdd(tally.text, OwnText(frame.node)))
  }

  function FramesOf(forest: seq<Topology>, depth: nat, again: Option<string>): seq<Frame> {
    seq(|forest|, k requires 0 <= k < |forest| => Frame(forest[k], depth, again))
  }

  function NodesIn(frames: seq<Frame>): seq<Topology> {
    seq(|frames|, k requires 0 <= k < |frames| => frames[k].node)
  }

  // Visiting in order: each node before what it encloses, that before what comes after.
  function Visit(frames: seq<Frame>, tally: Tally): Result<(), TooLarge>
    decreases SizeOf(NodesIn(frames))
  {
    if frames == [] then Ok(())
    else
      var (me, again) := Named(frames[0], tally);
      var charged := Charged(frames[0], Counted(frames[0], tally));
      if frames[0].depth > MAX_DEPTH then Err(TooLarge(DepthBound, me))
      else if charged.nodes > MAX_NODES then Err(TooLarge(NodesBound, me))
      else if charged.text > MAX_TEXT then Err(TooLarge(TextBound, me))
      else
        FramesShrink(frames, again);
        Visit(FramesOf(Encloses(frames[0].node), frames[0].depth + 1, again) + frames[1..], charged)
  }

  lemma FramesShrink(frames: seq<Frame>, again: Option<string>)
    requires frames != []
    ensures SizeOf(NodesIn(FramesOf(Encloses(frames[0].node), frames[0].depth + 1, again) + frames[1..]))
            < SizeOf(NodesIn(frames))
  {
    var enclosed := FramesOf(Encloses(frames[0].node), frames[0].depth + 1, again);
    assert NodesIn(enclosed) == Encloses(frames[0].node);
    assert NodesIn(enclosed + frames[1..]) == NodesIn(enclosed) + NodesIn(frames[1..]);
    assert NodesIn(frames)[1..] == NodesIn(frames[1..]);
    SizeOfConcat(NodesIn(enclosed), NodesIn(frames[1..]));
    EnclosedSmaller(frames[0].node);
  }

  // What stops a visit at a node, if anything does.
  function Stops(depth: nat, nodes: nat, text: nat): Option<Bound> {
    if depth > MAX_DEPTH then Some(DepthBound)
    else if nodes > MAX_NODES then Some(NodesBound)
    else if text > MAX_TEXT then Some(TextBound)
    else None
  }

  // The frames left after visiting the first.
  function Onward(frames: seq<Frame>, again: Option<string>): seq<Frame>
    requires frames != []
  {
    FramesOf(Encloses(frames[0].node), frames[0].depth + 1, again) + frames[1..]
  }

  lemma VisitUnfolds(frames: seq<Frame>, tally: Tally, charged: Tally)
    requires frames != [] && charged == Charged(frames[0], Counted(frames[0], tally))
    ensures var (me, again) := Named(frames[0], tally);
            Visit(frames, tally) == match Stops(frames[0].depth, charged.nodes, charged.text)
                                    case Some(bound) => Err(TooLarge(bound, me))
                                    case None => Visit(Onward(frames, again), charged)
  {
  }

  // The measure, with the frames left to visit on a stack, the next on top.
  method Measure(tree: Topology) returns (r: Result<(), TooLarge>)
    ensures r == Visit([Frame(tree, 1, None)], Tally(0, {}, 0, 0))
  {
    var stack := [Frame(tree, 1, None)];
    var skolem, seen := 0, {};
    var budget := new Budget();
    assert Reversed(stack) == stack;
    while stack != []
      invariant Visit([Frame(tree, 1, None)], Tally(0, {}, 0, 0))
             == Visit(Reversed(stack), Tally(skolem, seen, budget.nodes, budget.text))
      invariant fresh(budget)
      decreases SizeOf(NodesIn(Reversed(stack)))
    {
      ghost var frames, tally := Reversed(stack), Tally(skolem, seen, budget.nodes, budget.text);
      var frame := stack[|stack| - 1];
      ReversedPop(stack);
      VisitUnfolds(frames, tally, Charged(frame, Counted(frame, tally)));
      stack := stack[..|stack| - 1];
      var refused, left;
      refused, left, skolem, seen := VisitOne(frame, skolem, seen, budget);
      if refused.Some? {
        return Err(refused.value);
      }
      FramesShrink(frames, Named(frame, tally).1);
      ReversedConcat(stack, left);
      stack := stack + Reversed(left);
    }
    return Ok(());
  }

  // One node: named, held to the depth and charged; what it encloses is left to visit.
  method VisitOne(frame: Frame, skolem: nat, seen: set<string>, budget: Budget)
    returns (refused: Option<TooLarge>, left: seq<Frame>, skolem': nat, seen': set<string>)
    modifies budget
    ensures var tally := Tally(skolem, seen, old(budget.nodes), old(budget.text));
            var (me, again) := Named(frame, tally);
            && (refused == match Stops(frame.depth, SatAdd(old(budget.nodes), OwnNodes(frame.node)),
                                       SatAdd(old(budget.text), OwnText(frame.node)))
                           case Some(bound) => Some(TooLarge(bound, me))
                           case None => None)
            && (frame.depth <= MAX_DEPTH ==>
                  Tally(skolem', seen', budget.nodes, budget.text) == Charged(frame, Counted(frame, tally)))
            && (refused.None? ==> left == FramesOf(Encloses(frame.node), frame.depth + 1, again))
  {
    var me, again;
    left := [];
    me, again, skolem', seen' := Name(frame, skolem, seen);
    ghost var nodes, text := budget.nodes, budget.text;
    assert (me, again) == Named(frame, Tally(skolem, seen, nodes, text));
    assert Tally(skolem', seen', nodes, text) == Counted(frame, Tally(skolem, seen, nodes, text));
    if frame.depth > MAX_DEPTH {
      refused := Some(TooLarge(DepthBound, me));
      return;
    }
    var charged := budget.Charge(frame.node, me);
    if charged.Err? {
      refused := Some(charged.error);
      return;
    }
    refused := None;
    left := FramesOf(Encloses(frame.node), frame.depth + 1, again);
  }

  // How a frame's node is named, counting it.
  method Name(frame: Frame, skolem: nat, seen: set<string>)
    returns (me: string, again: Option<string>, skolem': nat, seen': set<string>)
    ensures forall nodes, text ::
              && (me, again) == Named(frame, Tally(skolem, seen, nodes, text))
              && Tally(skolem', seen', nodes, text) == Counted(frame, Tally(skolem, seen, nodes, text))
  {
    again, skolem', seen' := frame.again, skolem, seen;
    if again.Some? {
      me := again.value;
    } else if frame.node.id.Some? {
      me := frame.node.id.value;
      if me in seen {
        again := Some(me);
        assert seen + {me} == seen;
      } else {
        seen' := seen + {me};
      }
    } else {
      skolem' := skolem + 1;
      me := SKOLEM_PREFIX + Decimal(skolem');
    }
  }

  lemma ReversedPop<T>(stack: seq<T>)
    requires stack != []
    ensures Reversed(stack)[0] == stack[|stack| - 1] && Reversed(stack)[1..] == Reversed(stack[..|stack| - 1])
  {
  }

  function Reversed<T>(s: seq<T>): (r: seq<T>)
    ensures |r| == |s|
  {
    seq(|s|, k requires 0 <= k < |s| => s[|s| - 1 - k])
  }

  lemma ReversedConcat<T>(rest: seq<T>, more: seq<T>)
    ensures Reversed(rest + Reversed(more)) == more + Reversed(rest)
  {
  }

  // ---- the measure is the recursive definition ----

  predicate WithinDepth(frames: seq<Frame>) {
    forall k | 0 <= k < |frames| :: Shallow(frames[k])
  }

  predicate Shallow(frame: Frame) { frame.depth + Depth([frame.node]) <= MAX_DEPTH + 1 }

  // Every frame within the depth, and all of them together within what is left of the budget.
  predicate Fits(frames: seq<Frame>, nodes: nat, text: nat) {
    WithinDepth(frames) && nodes + Nodes(NodesIn(frames)) <= MAX_NODES && text + TextOf(NodesIn(frames)) <= MAX_TEXT
  }

  lemma {:induction false} SumsConcat(a: seq<Topology>, b: seq<Topology>)
    ensures Nodes(a + b) == Nodes(a) + Nodes(b) && TextOf(a + b) == TextOf(a) + TextOf(b)
    ensures Depth(a + b) == Max(Depth(a), Depth(b))
    decreases |a|
  {
    if a == [] {
      assert a + b == b;
    } else {
      assert (a + b)[1..] == a[1..] + b && (a + b)[0] == a[0];
      SumsConcat(a[1..], b);
    }
  }

  lemma {:induction false} DepthAtMost(forest: seq<Topology>, limit: nat)
    ensures Depth(forest) <= limit <==> forall k | 0 <= k < |forest| :: Depth([forest[k]]) <= limit
    decreases |forest|
  {
    if forest != [] {
      assert [forest[0]] + forest[1..] == forest;
      SumsConcat([forest[0]], forest[1..]);
      DepthAtMost(forest[1..], limit);
      assert forall k | 1 <= k < |forest| :: forest[k] == forest[1..][k - 1];
    }
  }

  lemma One(node: Topology)
    ensures Nodes([node]) == OwnNodes(node) + Nodes(Encloses(node))
    ensures TextOf([node]) == OwnText(node) + TextOf(Encloses(node))
    ensures Depth([node]) == 1 + Depth(Encloses(node))
  {
    assert [node][1..] == [];
    EnclosedSmaller(node);
  }

  // One visit keeps whether everything fits.
  lemma FitsStep(frames: seq<Frame>, again: Option<string>, nodes: nat, text: nat)
    requires frames != [] && frames[0].depth <= MAX_DEPTH
    ensures var node := frames[0].node;
            Fits(frames, nodes, text)
            <==> Fits(FramesOf(Encloses(node), frames[0].depth + 1, again) + frames[1..],
                      nodes + OwnNodes(node), text + OwnText(node))
  {
    var node := frames[0].node;
    var enclosed := FramesOf(Encloses(node), frames[0].depth + 1, again);
    assert NodesIn(enclosed) == Encloses(node);
    assert NodesIn(enclosed + frames[1..]) == Encloses(node) + NodesIn(frames[1..]);
    VisitSums(frames, enclosed + frames[1..]);
    DepthStep(frames, again);
  }

  lemma WithinConcat(a: seq<Frame>, b: seq<Frame>)
    ensures WithinDepth(a + b) <==> WithinDepth(a) && WithinDepth(b)
  {
    if WithinDepth(a + b) {
      assert forall k | 0 <= k < |a| :: a[k] == (a + b)[k];
      assert forall k | 0 <= k < |b| :: b[k] == (a + b)[|a| + k];
    }
  }

  lemma EnclosedWithin(frame: Frame, again: Option<string>)
    requires frame.depth <= MAX_DEPTH
    ensures Shallow(frame) <==> WithinDepth(FramesOf(Encloses(frame.node), frame.depth + 1, again))
  {
    var enclosed := FramesOf(Encloses(frame.node), frame.depth + 1, again);
    One(frame.node);
    DepthAtMost(Encloses(frame.node), MAX_DEPTH - frame.depth);
    forall k | 0 <= k < |enclosed|
      ensures Shallow(enclosed[k]) <==> Depth([Encloses(frame.node)[k]]) <= MAX_DEPTH - frame.depth
    {
    }
    if WithinDepth(enclosed) {
      forall k | 0 <= k < |enclosed| ensures Depth([Encloses(frame.node)[k]]) <= MAX_DEPTH - frame.depth {
        assert Shallow(enclosed[k]);
      }
    }
  }

  lemma DepthStep(frames: seq<Frame>, again: Option<string>)
    requires frames != [] && frames[0].depth <= MAX_DEPTH
    ensures WithinDepth(frames)
            <==> WithinDepth(FramesOf(Encloses(frames[0].node), frames[0].depth + 1, again) + frames[1..])
  {
    assert frames == [frames[0]] + frames[1..];
    WithinConcat([frames[0]], frames[1..]);
    assert WithinDepth([frames[0]]) <==> Shallow([frames[0]][0]);
    EnclosedWithin(frames[0], again);
    WithinConcat(FramesOf(Encloses(frames[0].node), frames[0].depth + 1, again), frames[1..]);
  }

  // The visit accepts exactly what fits.
  lemma {:induction false} VisitFits(frames: seq<Frame>, tally: Tally)
    requires tally.nodes <= MAX_NODES && tally.text <= MAX_TEXT
    ensures Visit(frames, tally).Ok? <==> Fits(frames, tally.nodes, tally.text)
    decreases SizeOf(NodesIn(frames))
  {
    if frames == [] {
      assert NodesIn(frames) == [];
    } else {
      var (me, again) := Named(frames[0], tally);
      var charged := Charged(frames[0], Counted(frames[0], tally));
      OverIsOver(frames);
      if frames[0].depth <= MAX_DEPTH && charged.nodes <= MAX_NODES && charged.text <= MAX_TEXT {
        FramesShrink(frames, again);
        VisitFits(FramesOf(Encloses(frames[0].node), frames[0].depth + 1, again) + frames[1..], charged);
        FitsStep(frames, again, tally.nodes, tally.text);
      }
    }
  }

  // A frame too deep, or a node past the budget, is too much for all of them.
  lemma OverIsOver(frames: seq<Frame>)
    requires frames != []
    ensures Nodes(NodesIn(frames)) >= OwnNodes(frames[0].node) && TextOf(NodesIn(frames)) >= OwnText(frames[0].node)
    ensures frames[0].depth > MAX_DEPTH ==> !WithinDepth(frames)
  {
    assert NodesIn(frames)[0] == frames[0].node;
    One(frames[0].node);
    assert WithinDepth(frames) ==> Shallow(frames[0]);
  }

  // What a refusal says is passed is passed.
  ghost predicate Passed(bound: Bound, frames: seq<Frame>, nodes: nat, text: nat) {
    match bound
    case DepthBound => !WithinDepth(frames)
    case NodesBound => nodes + Nodes(NodesIn(frames)) > MAX_NODES
    case TextBound => text + TextOf(NodesIn(frames)) > MAX_TEXT
  }

  lemma PassedEarlier(bound: Bound, frames: seq<Frame>, again: Option<string>, nodes: nat, text: nat)
    requires frames != [] && frames[0].depth <= MAX_DEPTH
    requires Passed(bound, Onward(frames, again), nodes + OwnNodes(frames[0].node), text + OwnText(frames[0].node))
    ensures Passed(bound, frames, nodes, text)
  {
    var enclosed := FramesOf(Encloses(frames[0].node), frames[0].depth + 1, again);
    assert NodesIn(enclosed) == Encloses(frames[0].node);
    assert NodesIn(enclosed + frames[1..]) == Encloses(frames[0].node) + NodesIn(frames[1..]);
    VisitSums(frames, enclosed + frames[1..]);
    DepthStep(frames, again);
  }

  lemma {:induction false} VisitRefuses(frames: seq<Frame>, tally: Tally)
    requires tally.nodes <= MAX_NODES && tally.text <= MAX_TEXT && Visit(frames, tally).Err?
    ensures Passed(Visit(frames, tally).error.bound, frames, tally.nodes, tally.text)
    decreases SizeOf(NodesIn(frames))
  {
    var (me, again) := Named(frames[0], tally);
    var charged := Charged(frames[0], Counted(frames[0], tally));
    VisitUnfolds(frames, tally, charged);
    OverIsOver(frames);
    if Stops(frames[0].depth, charged.nodes, charged.text).None? {
      FramesShrink(frames, again);
      VisitRefuses(Onward(frames, again), charged);
      PassedEarlier(Visit(frames, tally).error.bound, frames, again, tally.nodes, tally.text);
    }
  }

  lemma VisitSums(frames: seq<Frame>, after: seq<Frame>)
    requires frames != [] && NodesIn(after) == Encloses(frames[0].node) + NodesIn(frames[1..])
    ensures Nodes(NodesIn(frames)) == OwnNodes(frames[0].node) + Nodes(NodesIn(after))
    ensures TextOf(NodesIn(frames)) == OwnText(frames[0].node) + TextOf(NodesIn(after))
  {
    assert NodesIn(frames) == [frames[0].node] + NodesIn(frames[1..]);
    SumsConcat(Encloses(frames[0].node), NodesIn(frames[1..]));
    SumsConcat([frames[0].node], NodesIn(frames[1..]));
    One(frames[0].node);
  }

  // The measure accepts a tree exactly when its depth, its expanded nodes and its expanded text,
  // by recursion, are within the bounds; and the bound a refusal names is one that is passed.
  lemma MeasureIsBounded(tree: Topology)
    ensures var r := Visit([Frame(tree, 1, None)], Tally(0, {}, 0, 0));
            && (r.Ok? <==> Bounded(tree))
            && (r.Err? ==> match r.error.bound
                           case DepthBound => Depth([tree]) > MAX_DEPTH
                           case NodesBound => Nodes([tree]) > MAX_NODES
                           case TextBound => TextOf([tree]) > MAX_TEXT)
  {
    var frames := [Frame(tree, 1, None)];
    assert NodesIn(frames) == [tree];
    VisitFits(frames, Tally(0, {}, 0, 0));
    if Visit(frames, Tally(0, {}, 0, 0)).Err? {
      VisitRefuses(frames, Tally(0, {}, 0, 0));
    }
    assert Shallow(frames[0]) <==> Depth([tree]) <= MAX_DEPTH;
  }
}
