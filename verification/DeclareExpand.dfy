// Expanding a graph of nodes into the tree it states (crates/ikigai-core/src/declare.rs:1440-1495):
// recursive, bounded as it goes, and refusing every node that encloses itself.
//
// Reading the triples of one node is not part of this model: a graph is what each node states of
// itself, and a node it does not hold is malformed.

module Expansion {
  import opened Wrappers
  import opened Words
  import opened Declarations

  // What a node states of itself: the node with no children and no corridors, and the names of what
  // it encloses, a corridor under its door.
  datatype Shallow = Shallow(tree: Topology, children: seq<string>, corridors: seq<Option<string>>)

  type Graph = map<string, Shallow>

  predicate WellStated(sh: Shallow) {
    && sh.tree.children == []
    && (if sh.tree.kind.EndpointSpace?
        then |sh.corridors| == |sh.tree.kind.doors| && Corridors(sh.tree.kind.doors) == []
             && forall d | 0 <= d < |sh.tree.kind.doors| :: sh.tree.kind.doors[d].confined.None?
        else sh.corridors == [])
  }

  ghost predicate WellGraph(graph: Graph) { forall s | s in graph :: WellStated(graph[s]) }

  function Present(corridors: seq<Option<string>>): seq<string> {
    if corridors == [] then []
    else (if corridors[0].Some? then [corridors[0].value] else []) + Present(corridors[1..])
  }

  // The names a node encloses, in the order they are read.
  function Names(sh: Shallow): seq<string> { sh.children + Present(sh.corridors) }

  // The doors with their corridors put in.
  function FillDoors(doors: seq<Door>, corridors: seq<Option<string>>, parts: seq<Topology>): seq<Door>
    requires |corridors| == |doors| && |parts| == |Present(corridors)|
  {
    if doors == [] then []
    else if corridors[0].Some?
    then [doors[0].(confined := Some(parts[0]))] + FillDoors(doors[1..], corridors[1..], parts[1..])
    else [doors[0]] + FillDoors(doors[1..], corridors[1..], parts)
  }

  // The node with what it encloses put in.
  function Assemble(sh: Shallow, parts: seq<Topology>): Topology
    requires WellStated(sh) && |parts| == |Names(sh)|
  {
    var n := |sh.children|;
    Topology(sh.tree.id,
             if sh.tree.kind.EndpointSpace? then EndpointSpace(FillDoors(sh.tree.kind.doors, sh.corridors, parts[n..]))
             else sh.tree.kind,
             parts[..n])
  }

  lemma {:induction false} FilledCorridors(doors: seq<Door>, corridors: seq<Option<string>>, parts: seq<Topology>)
    requires |corridors| == |doors| && |parts| == |Present(corridors)|
    requires forall d | 0 <= d < |doors| :: doors[d].confined.None?
    ensures Corridors(FillDoors(doors, corridors, parts)) == parts
    ensures DoorsText(FillDoors(doors, corridors, parts)) == DoorsText(doors)
    ensures |FillDoors(doors, corridors, parts)| == |doors|
  {
    if doors != [] {
      var filled := FillDoors(doors, corridors, parts);
      if corridors[0].Some? {
        FilledCorridors(doors[1..], corridors[1..], parts[1..]);
        assert filled[1..] == FillDoors(doors[1..], corridors[1..], parts[1..]);
        assert [parts[0]] + parts[1..] == parts;
      } else {
        FilledCorridors(doors[1..], corridors[1..], parts);
        assert filled[1..] == FillDoors(doors[1..], corridors[1..], parts);
        assert [] + parts == parts;
      }
    }
  }

  // A node put together encloses its parts, and is charged what it states.
  lemma Assembled(sh: Shallow, parts: seq<Topology>)
    requires WellStated(sh) && |parts| == |Names(sh)|
    ensures var tree := Assemble(sh, parts);
            Encloses(tree) == parts && OwnNodes(tree) == OwnNodes(sh.tree) && OwnText(tree) == OwnText(sh.tree)
  {
    var n := |sh.children|;
    assert parts[..n] + parts[n..] == parts;
    if sh.tree.kind.EndpointSpace? {
      FilledCorridors(sh.tree.kind.doors, sh.corridors, parts[n..]);
    } else {
      assert parts[n..] == [];
    }
  }

  // ---- the tree a graph states ----

  // Trees that are what the graph states under some names, all the way down.
  predicate Unfolds(graph: Graph, names: seq<string>, forest: seq<Topology>)
    decreases SizeOf(forest)
  {
    if names == [] || forest == [] then names == [] && forest == []
    else
      EnclosedSmaller(forest[0]);
      var parts := Encloses(forest[0]);
      && names[0] in graph && WellStated(graph[names[0]])
      && |parts| == |Names(graph[names[0]])| && forest[0] == Assemble(graph[names[0]], parts)
      && Unfolds(graph, Names(graph[names[0]]), parts)
      && Unfolds(graph, names[1..], forest[1..])
  }

  lemma {:induction false} UnfoldsOnce(graph: Graph, names: seq<string>, a: seq<Topology>, b: seq<Topology>)
    requires Unfolds(graph, names, a) && Unfolds(graph, names, b)
    ensures a == b
    decreases SizeOf(a)
  {
    if names != [] {
      EnclosedSmaller(a[0]);
      UnfoldsOnce(graph, Names(graph[names[0]]), Encloses(a[0]), Encloses(b[0]));
      UnfoldsOnce(graph, names[1..], a[1..], b[1..]);
      assert a == [a[0]] + a[1..] && b == [b[0]] + b[1..];
    }
  }

  lemma {:induction false} UnfoldsLength(graph: Graph, names: seq<string>, forest: seq<Topology>)
    requires Unfolds(graph, names, forest)
    ensures |names| == |forest|
    decreases |names|
  {
    if names != [] {
      UnfoldsLength(graph, names[1..], forest[1..]);
    }
  }

  lemma {:induction false} UnfoldsConcat(graph: Graph, a: seq<string>, f: seq<Topology>, b: seq<string>,
                                         h: seq<Topology>)
    requires |a| == |f|
    ensures Unfolds(graph, a + b, f + h) <==> Unfolds(graph, a, f) && Unfolds(graph, b, h)
    decreases |a|
  {
    if a == [] {
      assert a + b == b && f + h == h;
    } else {
      assert (a + b)[1..] == a[1..] + b && (f + h)[1..] == f[1..] + h && (f + h)[0] == f[0] && (a + b)[0] == a[0];
      UnfoldsConcat(graph, a[1..], f[1..], b, h);
    }
  }

  lemma UnfoldsNode(graph: Graph, s: string, tree: Topology)
    ensures Unfolds(graph, [s], [tree])
            <==> s in graph && WellStated(graph[s]) && |Encloses(tree)| == |Names(graph[s])|
                 && tree == Assemble(graph[s], Encloses(tree)) && Unfolds(graph, Names(graph[s]), Encloses(tree))
  {
    assert [s][1..] == [] && [tree][1..] == [];
    assert Unfolds(graph, [], []);
  }

  lemma Cut<T>(s: seq<T>, k: nat)
    requires k < |s|
    ensures s == s[..k] + s[k..] && s[k..] == [s[k]] + s[k + 1..]
  {
  }

  // The `k`th of some names unfolds to the `k`th of their trees.
  lemma UnfoldsAt(graph: Graph, names: seq<string>, forest: seq<Topology>, k: nat)
    requires Unfolds(graph, names, forest) && k < |names|
    ensures |forest| == |names| && Unfolds(graph, [names[k]], [forest[k]]) && Unfolds(graph, names[..k], forest[..k])
  {
    UnfoldsLength(graph, names, forest);
    Cut(names, k);
    Cut(forest, k);
    UnfoldsConcat(graph, names[..k], forest[..k], names[k..], forest[k..]);
    UnfoldsConcat(graph, [names[k]], [forest[k]], names[k + 1..], forest[k + 1..]);
  }

  // A tree and those before it are no larger than all.
  lemma SumsAt(forest: seq<Topology>, k: nat)
    requires k < |forest|
    ensures Nodes(forest) >= Nodes(forest[..k]) + Nodes([forest[k]])
    ensures TextOf(forest) >= TextOf(forest[..k]) + TextOf([forest[k]])
    ensures Depth(forest) >= Depth([forest[k]])
  {
    assert forest == forest[..k] + forest[k..] && forest[k..] == [forest[k]] + forest[k + 1..];
    SumsConcat(forest[..k], forest[k..]);
    SumsConcat([forest[k]], forest[k + 1..]);
  }

  lemma SizeAt(forest: seq<Topology>, k: nat)
    requires k < |forest|
    ensures Size(forest[k]) <= SizeOf(forest)
  {
    assert forest == forest[..k] + forest[k..] && forest[k..][1..] == forest[k + 1..];
    SizeOfConcat(forest[..k], forest[k..]);
  }

  // ---- the same, node by node ----

  function BareDoors(doors: seq<Door>): seq<Door> {
    if doors == [] then [] else [doors[0].(confined := None)] + BareDoors(doors[1..])
  }

  // A node with everything it encloses taken out.
  function Bare(tree: Topology): Topology {
    Topology(tree.id, if tree.kind.EndpointSpace? then EndpointSpace(BareDoors(tree.kind.doors)) else tree.kind, [])
  }

  // A corridor stands exactly at the doors that name one.
  predicate CorridorsWhere(doors: seq<Door>, corridors: seq<Option<string>>) {
    |doors| == |corridors| && forall d | 0 <= d < |doors| :: doors[d].confined.Some? <==> corridors[d].Some?
  }

  predicate Shaped(sh: Shallow, tree: Topology) {
    && Bare(tree) == sh.tree && |tree.children| == |sh.children|
    && (tree.kind.EndpointSpace? ==> CorridorsWhere(tree.kind.doors, sh.corridors))
  }

  // A tree is what the graph states under a name when, without what it encloses, its root is what the
  // node states of itself, and each child and corridor is what the graph states under its own name.
  ghost predicate States(graph: Graph, s: string, tree: Topology)
    decreases tree
  {
    && s in graph && WellStated(graph[s]) && Shaped(graph[s], tree)
    && (forall k | 0 <= k < |tree.children| :: States(graph, graph[s].children[k], tree.children[k]))
    && (tree.kind.EndpointSpace? ==>
          forall d | 0 <= d < |tree.kind.doors| && tree.kind.doors[d].confined.Some? ::
            States(graph, graph[s].corridors[d].value, tree.kind.doors[d].confined.value))
  }

  lemma {:induction false} FilledShape(doors: seq<Door>, corridors: seq<Option<string>>, parts: seq<Topology>)
    requires |corridors| == |doors| && |parts| == |Present(corridors)|
    requires forall d | 0 <= d < |doors| :: doors[d].confined.None?
    ensures BareDoors(FillDoors(doors, corridors, parts)) == doors
    ensures CorridorsWhere(FillDoors(doors, corridors, parts), corridors)
  {
    if doors != [] {
      var rest := if corridors[0].Some? then parts[1..] else parts;
      FilledShape(doors[1..], corridors[1..], rest);
      var filled := FillDoors(doors, corridors, parts);
      assert filled[1..] == FillDoors(doors[1..], corridors[1..], rest);
      assert doors == [doors[0]] + doors[1..];
      forall d | 0 <= d < |doors| ensures filled[d].confined.Some? <==> corridors[d].Some? {
        assert d > 0 ==> filled[d] == filled[1..][d - 1] && corridors[d] == corridors[1..][d - 1];
      }
    }
  }

  // Doors with their corridors taken out and put back are as they were.
  lemma {:induction false} Refilled(doors: seq<Door>, corridors: seq<Option<string>>)
    requires CorridorsWhere(doors, corridors)
    ensures |Corridors(doors)| == |Present(corridors)| && |BareDoors(doors)| == |doors|
    ensures FillDoors(BareDoors(doors), corridors, Corridors(doors)) == doors
  {
    if doors != [] {
      assert CorridorsWhere(doors[1..], corridors[1..]) by {
        assert forall d | 0 <= d < |doors| - 1 ::
                 doors[1..][d] == doors[d + 1] && corridors[1..][d] == corridors[d + 1];
      }
      Refilled(doors[1..], corridors[1..]);
      RefilledFirst(doors, corridors);
    }
  }

  lemma RefilledFirst(doors: seq<Door>, corridors: seq<Option<string>>)
    requires CorridorsWhere(doors, corridors) && doors != []
    requires |Corridors(doors[1..])| == |Present(corridors[1..])| && |BareDoors(doors[1..])| == |doors| - 1
    requires FillDoors(BareDoors(doors[1..]), corridors[1..], Corridors(doors[1..])) == doors[1..]
    ensures |Corridors(doors)| == |Present(corridors)| && |BareDoors(doors)| == |doors|
    ensures FillDoors(BareDoors(doors), corridors, Corridors(doors)) == doors
  {
    var bare, parts := BareDoors(doors), Corridors(doors);
    assert bare[1..] == BareDoors(doors[1..]) && doors == [doors[0]] + doors[1..];
    if corridors[0].Some? {
      assert parts[1..] == Corridors(doors[1..]);
    } else {
      assert parts == Corridors(doors[1..]);
    }
  }

  // Put together from what it encloses is exactly being of the shape stated.
  lemma AssembledIff(sh: Shallow, tree: Topology)
    requires WellStated(sh)
    ensures Shaped(sh, tree) <==> |Encloses(tree)| == |Names(sh)| && tree == Assemble(sh, Encloses(tree))
  {
    var n := |sh.children|;
    if |Encloses(tree)| == |Names(sh)| && tree == Assemble(sh, Encloses(tree)) {
      if sh.tree.kind.EndpointSpace? {
        FilledShape(sh.tree.kind.doors, sh.corridors, Encloses(tree)[n..]);
      }
    }
    if Shaped(sh, tree) {
      if tree.kind.EndpointSpace? {
        Refilled(tree.kind.doors, sh.corridors);
        assert Encloses(tree)[n..] == Corridors(tree.kind.doors);
      }
      assert Encloses(tree)[..n] == tree.children;
    }
  }

  // Names unfold to trees exactly when each does to its own.
  lemma {:induction false} UnfoldsEach(graph: Graph, names: seq<string>, forest: seq<Topology>)
    ensures Unfolds(graph, names, forest)
            <==> |names| == |forest| && forall k | 0 <= k < |names| :: Unfolds(graph, [names[k]], [forest[k]])
    decreases |names|
  {
    if names != [] && forest != [] {
      UnfoldsEach(graph, names[1..], forest[1..]);
      UnfoldsConcat(graph, [names[0]], [forest[0]], names[1..], forest[1..]);
      assert names == [names[0]] + names[1..] && forest == [forest[0]] + forest[1..];
      if |names| == |forest| {
        EachCons(graph, names, forest);
      }
    }
  }

  lemma EachCons(graph: Graph, names: seq<string>, forest: seq<Topology>)
    requires names != [] && |names| == |forest|
    ensures (forall k | 0 <= k < |names| :: Unfolds(graph, [names[k]], [forest[k]]))
            <==> Unfolds(graph, [names[0]], [forest[0]])
                 && forall k | 0 <= k < |names[1..]| :: Unfolds(graph, [names[1..][k]], [forest[1..][k]])
  {
    var more, rest := names[1..], forest[1..];
    assert forall k | 0 <= k < |more| :: more[k] == names[k + 1] && rest[k] == forest[k + 1];
    assert forall k | 0 < k < |names| :: names[k] == more[k - 1] && forest[k] == rest[k - 1];
  }

  // The names and trees of the corridors, door by door.
  lemma {:induction false} CorridorPairs(graph: Graph, doors: seq<Door>, corridors: seq<Option<string>>)
    requires CorridorsWhere(doors, corridors)
    ensures Unfolds(graph, Present(corridors), Corridors(doors))
            <==> forall d | 0 <= d < |doors| && doors[d].confined.Some? ::
                   Unfolds(graph, [corridors[d].value], [doors[d].confined.value])
  {
    if doors != [] {
      var more, rest := doors[1..], corridors[1..];
      assert forall d | 0 <= d < |more| :: more[d] == doors[d + 1] && rest[d] == corridors[d + 1];
      assert forall d | 0 < d < |doors| :: doors[d] == more[d - 1] && corridors[d] == rest[d - 1];
      CorridorPairs(graph, more, rest);
      if corridors[0].Some? {
        UnfoldsConcat(graph, [corridors[0].value], [doors[0].confined.value], Present(rest), Corridors(more));
      } else {
        assert [] + Present(rest) == Present(rest) && [] + Corridors(more) == Corridors(more);
      }
    }
  }

  // What a node encloses unfolds from its names exactly when each child and each corridor does.
  lemma EnclosedEach(graph: Graph, sh: Shallow, tree: Topology)
    requires WellStated(sh) && Shaped(sh, tree)
    ensures Unfolds(graph, Names(sh), Encloses(tree))
            <==> && (forall k | 0 <= k < |tree.children| :: Unfolds(graph, [sh.children[k]], [tree.children[k]]))
                 && (tree.kind.EndpointSpace? ==>
                       forall d | 0 <= d < |tree.kind.doors| && tree.kind.doors[d].confined.Some? ::
                         Unfolds(graph, [sh.corridors[d].value], [tree.kind.doors[d].confined.value]))
  {
    UnfoldsEach(graph, sh.children, tree.children);
    if tree.kind.EndpointSpace? {
      UnfoldsConcat(graph, sh.children, tree.children, Present(sh.corridors), Corridors(tree.kind.doors));
      CorridorPairs(graph, tree.kind.doors, sh.corridors);
    } else {
      assert sh.children + [] == sh.children && tree.children + [] == tree.children;
    }
  }

  // The tree a graph unfolds to is the one it states.
  lemma {:induction false} UnfoldsIffStates(graph: Graph, s: string, tree: Topology)
    ensures Unfolds(graph, [s], [tree]) <==> States(graph, s, tree)
    decreases tree
  {
    UnfoldsNode(graph, s, tree);
    if s in graph && WellStated(graph[s]) {
      AssembledIff(graph[s], tree);
      if Shaped(graph[s], tree) {
        EnclosedEach(graph, graph[s], tree);
        forall k | 0 <= k < |tree.children|
          ensures Unfolds(graph, [graph[s].children[k]], [tree.children[k]])
                  <==> States(graph, graph[s].children[k], tree.children[k])
        {
          UnfoldsIffStates(graph, graph[s].children[k], tree.children[k]);
        }
        if tree.kind.EndpointSpace? {
          forall d | 0 <= d < |tree.kind.doors| && tree.kind.doors[d].confined.Some?
            ensures Unfolds(graph, [graph[s].corridors[d].value], [tree.kind.doors[d].confined.value])
                    <==> States(graph, graph[s].corridors[d].value, tree.kind.doors[d].confined.value)
          {
            UnfoldsIffStates(graph, graph[s].corridors[d].value, tree.kind.doors[d].confined.value);
          }
        }
      }
    }
  }

  // ---- cycles ----

  // Each name encloses the next.
  predicate Linked(graph: Graph, chain: seq<string>) {
    |chain| > 1 ==> chain[0] in graph && chain[1] in Names(graph[chain[0]]) && Linked(graph, chain[1..])
  }

  // What a node encloses has a smaller tree.
  lemma EnclosedUnfolds(graph: Graph, s: string, name: string, tree: Topology) returns (part: Topology)
    requires Unfolds(graph, [s], [tree]) && s in graph && name in Names(graph[s])
    ensures Unfolds(graph, [name], [part]) && Size(part) < Size(tree)
  {
    UnfoldsNode(graph, s, tree);
    var k: nat :| k < |Names(graph[s])| && Names(graph[s])[k] == name;
    UnfoldsAt(graph, Names(graph[s]), Encloses(tree), k);
    SizeAt(Encloses(tree), k);
    EnclosedSmaller(tree);
    part := Encloses(tree)[k];
  }

  // The name a chain ends at unfolds to a tree smaller by as many as it is below.
  ghost predicate EndsSmaller(graph: Graph, chain: seq<string>, tree: Topology, last: Topology)
    requires chain != []
  {
    Unfolds(graph, [chain[|chain| - 1]], [last]) && Size(last) + |chain| - 1 <= Size(tree)
  }

  lemma LongerChain(graph: Graph, chain: seq<string>, tree: Topology, part: Topology, last: Topology)
    requires |chain| > 1 && EndsSmaller(graph, chain[1..], part, last) && Size(part) < Size(tree)
    ensures EndsSmaller(graph, chain, tree, last)
  {
    assert chain[1..][|chain| - 2] == chain[|chain| - 1];
  }

  // Down a chain of nodes the trees only get smaller.
  lemma {:induction false} ChainShrinks(graph: Graph, chain: seq<string>, tree: Topology) returns (last: Topology)
    requires chain != [] && Linked(graph, chain) && Unfolds(graph, [chain[0]], [tree])
    ensures EndsSmaller(graph, chain, tree, last)
  {
    if |chain| == 1 {
      last := tree;
    } else {
      var part := EnclosedUnfolds(graph, chain[0], chain[1], tree);
      last := ChainShrinks(graph, chain[1..], part);
      LongerChain(graph, chain, tree, part, last);
    }
  }

  lemma {:induction false} LinkedFrom(graph: Graph, chain: seq<string>, i: nat)
    requires Linked(graph, chain) && i < |chain|
    ensures Linked(graph, chain[i..])
    decreases i
  {
    if i > 0 {
      LinkedFrom(graph, chain[1..], i - 1);
      assert chain[1..][i - 1..] == chain[i..];
    } else {
      assert chain[0..] == chain;
    }
  }

  lemma {:induction false} LinkedPush(graph: Graph, path: seq<string>, s: string, name: string)
    requires Linked(graph, path + [s]) && s in graph && name in Names(graph[s])
    ensures Linked(graph, path + [s] + [name])
  {
    if path == [] {
      assert [s] + [name] == [s, name] && ([] + [s]) + [name] == [s, name] && [s, name][1..] == [name];
    } else {
      assert (path + [s])[1..] == path[1..] + [s];
      LinkedPush(graph, path[1..], s, name);
      assert (path + [s] + [name])[1..] == path[1..] + [s] + [name];
      assert (path + [s] + [name])[1] == (path + [s])[1];
    }
  }

  // A node that encloses itself, at any distance, states no tree.
  lemma CycleUnfoldsNever(graph: Graph, path: seq<string>, s: string, tree: Topology)
    requires Linked(graph, path + [s]) && s in path
    ensures !Unfolds(graph, [s], [tree])
  {
    var i: nat :| i < |path| && path[i] == s;
    var chain := (path + [s])[i..];
    LinkedFrom(graph, path + [s], i);
    assert chain[0] == s && chain[|chain| - 1] == s && |chain| > 1;
    if Unfolds(graph, [s], [tree]) {
      var last := ChainShrinks(graph, chain, tree);
      UnfoldsOnce(graph, [s], [tree], [last]);
    }
  }

  lemma {:induction false} LinkedUpTo(graph: Graph, chain: seq<string>, n: nat)
    requires Linked(graph, chain) && n <= |chain|
    ensures Linked(graph, chain[..n])
    decreases n
  {
    if n > 1 {
      LinkedUpTo(graph, chain[1..], n - 1);
      assert chain[..n][1..] == chain[1..][..n - 1];
    }
  }

  // A chain down from the root that meets a name twice.
  ghost predicate CycleBelow(graph: Graph, root: string, chain: seq<string>) {
    && chain != [] && chain[0] == root && Linked(graph, chain)
    && exists i, j :: 0 <= i < j < |chain| && chain[i] == chain[j]
  }

  // So a root with a cycle anywhere below it states no tree.
  lemma CycleBelowUnfoldsNever(graph: Graph, root: string, chain: seq<string>, tree: Topology)
    requires CycleBelow(graph, root, chain)
    ensures !Unfolds(graph, [root], [tree])
  {
    var i, j :| 0 <= i < j < |chain| && chain[i] == chain[j];
    var path := chain[..j];
    LinkedUpTo(graph, chain, j + 1);
    assert chain[..j + 1] == path + [chain[j]] && path[i] == chain[j];
    if Unfolds(graph, [root], [tree]) {
      var last := ChainShrinks(graph, path + [chain[j]], tree);
      CycleUnfoldsNever(graph, path, chain[j], last);
    }
  }

  // ---- the expansion ----

  datatype Failure = Cycle(node: string) | Missing(node: string) | Over(error: TooLarge)

  // Trees that would stay within the bounds below `depth` and on top of what is charged.
  predicate Room(depth: nat, nodes: nat, text: nat, forest: seq<Topology>) {
    depth + Depth(forest) <= MAX_DEPTH && nodes + Nodes(forest) <= MAX_NODES && text + TextOf(forest) <= MAX_TEXT
  }

  // Why some names did not expand: nothing they unfold to has room, or they unfold to nothing.
  ghost predicate Deserved(graph: Graph, names: seq<string>, depth: nat, nodes: nat, text: nat, failure: Failure) {
    forall forest :: Unfolds(graph, names, forest) ==> failure.Over? && !Room(depth, nodes, text, forest)
  }

  class Expander {
    const graph: Graph
    const budget: Budget
    var path: seq<string>

    constructor (graph: Graph)
      ensures this.graph == graph && path == [] && fresh(budget) && budget.nodes == 0 && budget.text == 0
    {
      this.graph, path := graph, [];
      budget := new Budget();
    }

    ghost predicate Ready()
      reads this, budget
    {
      WellGraph(graph) && |path| <= MAX_DEPTH && budget.nodes <= MAX_NODES && budget.text <= MAX_TEXT
    }

    // Expand one node, with `path` the nodes enclosing it.
    method Node(s: string) returns (r: Result<Topology, Failure>)
      requires Ready() && Linked(graph, path + [s])
      modifies this`path, budget
      ensures path == old(path)
      ensures r.Ok? ==>
                && Unfolds(graph, [s], [r.value]) && Room(|path|, old(budget.nodes), old(budget.text), [r.value])
                && budget.nodes == old(budget.nodes) + Nodes([r.value])
                && budget.text == old(budget.text) + TextOf([r.value])
      ensures r.Err? ==> Deserved(graph, [s], |path|, old(budget.nodes), old(budget.text), r.error)
      decreases MAX_DEPTH - |path|, 0
    {
      ghost var depth, nodes, text := |path|, budget.nodes, budget.text;
      if s in path {
        NoTree(graph, path, s);
        return Err(Cycle(s));
      }
      if |path| >= MAX_DEPTH {
        TooDeep(graph, s, depth, nodes, text);
        return Err(Over(TooLarge(DepthBound, s)));
      }
      if s !in graph {
        MissingTree(graph, s);
        return Err(Missing(s));
      }
      var sh := graph[s];
      var charged := budget.Charge(sh.tree, s);
      if charged.Err? {
        OverBudget(graph, s, depth, nodes, text);
        return Err(Over(charged.error));
      }
      ghost var chargedNodes, chargedText := budget.nodes, budget.text;
      assert chargedNodes == nodes + OwnNodes(sh.tree) && chargedText == text + OwnText(sh.tree);
      path := path + [s];
      var below, parts := Below(s, sh);
      path := path[..|path| - 1];
      if below.Err? {
        BelowFails(graph, s, depth, nodes, text, below.error);
      } else {
        NodeFits(graph, s, depth, nodes, text, parts);
      }
      return below;
    }

    // Expand what a node encloses into it: its children, then each door's corridor.
    method Below(s: string, sh: Shallow) returns (r: Result<Topology, Failure>, ghost parts: seq<Topology>)
      requires Ready() && Encloser(s, sh)
      modifies this`path, budget
      ensures path == old(path)
      ensures r.Ok? ==>
                && |parts| == |Names(sh)| && r.value == Assemble(sh, parts) && Unfolds(graph, Names(sh), parts)
                && Room(|path|, old(budget.nodes), old(budget.text), parts)
                && budget.nodes == old(budget.nodes) + Nodes(parts) && budget.text == old(budget.text) + TextOf(parts)
      ensures r.Err? ==> Deserved(graph, Names(sh), |path|, old(budget.nodes), old(budget.text), r.error)
      decreases MAX_DEPTH - |path|, 3
    {
      assert Names(sh)[..|Names(sh)|] == Names(sh);
      ghost var nodes, text := budget.nodes, budget.text;
      parts := [];
      var children := Children(s, sh, nodes, text);
      if children.Err? {
        return Err(children.error), parts;
      }
      parts := children.value;
      if !sh.tree.kind.EndpointSpace? {
        assert Names(sh) == sh.children && parts[..|sh.children|] == parts;
        return Ok(sh.tree.(children := children.value)), parts;
      }
      var doors, more := Doors(s, sh, nodes, text, parts);
      if doors.Err? {
        return Err(doors.error), parts;
      }
      assert (parts + more)[..|parts|] == parts && (parts + more)[|parts|..] == more;
      parts := parts + more;
      return Ok(sh.tree.(children := children.value, kind := EndpointSpace(doors.value))), parts;
    }

    // `s` is the innermost node of the path, and states `sh`.
    predicate Encloser(s: string, sh: Shallow)
      reads this
    {
      s in graph && graph[s] == sh && path != [] && path[|path| - 1] == s && Linked(graph, path)
    }

    method Children(s: string, sh: Shallow, ghost nodes: nat, ghost text: nat)
      returns (r: Result<seq<Topology>, Failure>)
      requires Ready() && Encloser(s, sh) && budget.nodes == nodes && budget.text == text
      modifies this`path, budget
      ensures path == old(path)
      ensures r.Ok? ==> |r.value| == |sh.children| && Expanded(nodes, text, Names(sh), r.value)
      ensures r.Err? ==> Deserved(graph, Names(sh), |path|, nodes, text, r.error)
      decreases MAX_DEPTH - |path|, 2
    {
      var children: seq<Topology> := [];
      ghost var names := Names(sh);
      for k := 0 to |sh.children|
        invariant path == old(path) && |children| == k
        invariant Expanded(nodes, text, names, children)
      {
        assert names[k] == sh.children[k];
        var child := Next(s, sh.children[k], nodes, text, names, children);
        if child.Err? {
          return Err(child.error);
        }
        children := children + [child.value];
      }
      return Ok(children);
    }

    // Each corridor put in at its door.
    method Doors(s: string, sh: Shallow, ghost nodes: nat, ghost text: nat, ghost children: seq<Topology>)
      returns (r: Result<seq<Door>, Failure>, ghost parts: seq<Topology>)
      requires Encloser(s, sh) && sh.tree.kind.EndpointSpace? && |sh.corridors| == |sh.tree.kind.doors|
      requires |children| == |sh.children| && Expanded(nodes, text, Names(sh), children)
      modifies this`path, budget
      ensures path == old(path)
      ensures r.Ok? ==>
                && |parts| == |Present(sh.corridors)| && r.value == FillDoors(sh.tree.kind.doors, sh.corridors, parts)
                && Expanded(nodes, text, Names(sh), children + parts)
      ensures r.Err? ==> Deserved(graph, Names(sh), |path|, nodes, text, r.error)
      decreases MAX_DEPTH - |path|, 2
    {
      ghost var names := Names(sh);
      var doors := sh.tree.kind.doors;
      parts := [];
      assert children + [] == children;
      for d := 0 to |sh.corridors|
        invariant path == old(path) && Expanded(nodes, text, names, children + parts)
        invariant FilledTo(sh, doors, parts, d)
      {
        if sh.corridors[d].Some? {
          NextName(sh, d, |parts|);
          var corridor := Next(s, sh.corridors[d].value, nodes, text, names, children + parts);
          if corridor.Err? {
            return Err(corridor.error), parts;
          }
          FillNext(sh, doors, parts, d, corridor);
          doors := doors[d := doors[d].(confined := Some(corridor.value))];
          assert children + parts + [corridor.value] == children + (parts + [corridor.value]);
          parts := parts + [corridor.value];
        } else {
          FillNext(sh, doors, parts, d, Err(()));
        }
      }
      FillDone(sh, doors, parts);
      return Ok(doors), parts;
    }

    // So far so good: the first of the names are expanded, within the bounds, and charged.
    ghost predicate Expanded(nodes: nat, text: nat, names: seq<string>, parts: seq<Topology>)
      reads this, budget
    {
      && Ready() && |parts| <= |names| && Unfolds(graph, names[..|parts|], parts)
      && Room(|path|, nodes, text, parts)
      && budget.nodes == nodes + Nodes(parts) && budget.text == text + TextOf(parts)
    }

    // Expand the next of the names.
    method Next(s: string, name: string, ghost nodes: nat, ghost text: nat, ghost names: seq<string>,
                ghost parts: seq<Topology>)
      returns (r: Result<Topology, Failure>)
      requires Expanded(nodes, text, names, parts) && |parts| < |names| && names[|parts|] == name
      requires s in graph && Encloser(s, graph[s]) && Names(graph[s]) == names
      modifies this`path, budget
      ensures path == old(path)
      ensures r.Ok? ==> Expanded(nodes, text, names, parts + [r.value])
      ensures r.Err? ==> Deserved(graph, names, |path|, nodes, text, r.error)
      decreases MAX_DEPTH - |path|, 1, 0
    {
      assert path == path[..|path| - 1] + [s];
      assert name in names;
      LinkedPush(graph, path[..|path| - 1], s, name);
      ghost var before, beforeText := budget.nodes, budget.text;
      r := Node(name);
      match r
      case Ok(tree) =>
        RoomFor(parts, |path|, nodes, text, tree);
        UnfoldsMore(graph, names, parts, tree);
      case Err(e) =>
        NextFails(graph, names, parts, |path|, nodes, text, e);
    }
  }

  lemma NoTree(graph: Graph, path: seq<string>, s: string)
    requires Linked(graph, path + [s]) && s in path
    ensures forall forest :: !Unfolds(graph, [s], forest)
  {
    forall forest ensures !Unfolds(graph, [s], forest) {
      if Unfolds(graph, [s], forest) {
        UnfoldsLength(graph, [s], forest);
        assert forest == [forest[0]];
        CycleUnfoldsNever(graph, path, s, forest[0]);
      }
    }
  }

  lemma Single(graph: Graph, s: string, forest: seq<Topology>)
    requires Unfolds(graph, [s], forest)
    ensures |forest| == 1 && forest == [forest[0]]
  {
    UnfoldsLength(graph, [s], forest);
  }

  lemma TooDeep(graph: Graph, s: string, depth: nat, nodes: nat, text: nat)
    requires depth >= MAX_DEPTH
    ensures Deserved(graph, [s], depth, nodes, text, Over(TooLarge(DepthBound, s)))
  {
    forall forest | Unfolds(graph, [s], forest) ensures !Room(depth, nodes, text, forest) {
      Single(graph, s, forest);
      One(forest[0]);
    }
  }

  lemma MissingTree(graph: Graph, s: string)
    requires s !in graph
    ensures forall forest :: !Unfolds(graph, [s], forest)
  {
  }

  lemma OverBudget(graph: Graph, s: string, depth: nat, nodes: nat, text: nat)
    requires s in graph && WellStated(graph[s])
    requires SatAdd(nodes, OwnNodes(graph[s].tree)) > MAX_NODES || SatAdd(text, OwnText(graph[s].tree)) > MAX_TEXT
    ensures forall failure: Failure :: failure.Over? ==> Deserved(graph, [s], depth, nodes, text, failure)
  {
    forall forest | Unfolds(graph, [s], forest) ensures !Room(depth, nodes, text, forest) {
      Single(graph, s, forest);
      One(forest[0]);
      Assembled(graph[s], Encloses(forest[0]));
    }
  }

  lemma BelowFails(graph: Graph, s: string, depth: nat, nodes: nat, text: nat, failure: Failure)
    requires s in graph && WellStated(graph[s])
    requires Deserved(graph, Names(graph[s]), depth + 1, nodes + OwnNodes(graph[s].tree),
                      text + OwnText(graph[s].tree), failure)
    ensures Deserved(graph, [s], depth, nodes, text, failure)
  {
    forall forest | Unfolds(graph, [s], forest) ensures failure.Over? && !Room(depth, nodes, text, forest) {
      Single(graph, s, forest);
      UnfoldsNode(graph, s, forest[0]);
      RoomBelow(graph[s], forest[0], depth, nodes, text);
    }
  }

  // Room for a node is room below it for what it encloses.
  lemma RoomBelow(sh: Shallow, tree: Topology, depth: nat, nodes: nat, text: nat)
    requires WellStated(sh) && |Encloses(tree)| == |Names(sh)| && tree == Assemble(sh, Encloses(tree))
    ensures Room(depth, nodes, text, [tree]) ==>
              Room(depth + 1, nodes + OwnNodes(sh.tree), text + OwnText(sh.tree), Encloses(tree))
  {
    One(tree);
    Assembled(sh, Encloses(tree));
  }

  lemma NodeFits(graph: Graph, s: string, depth: nat, nodes: nat, text: nat, parts: seq<Topology>)
    requires s in graph && WellStated(graph[s]) && |parts| == |Names(graph[s])|
             && Unfolds(graph, Names(graph[s]), parts)
    requires Room(depth + 1, nodes + OwnNodes(graph[s].tree), text + OwnText(graph[s].tree), parts)
    ensures var tree := Assemble(graph[s], parts);
            && Unfolds(graph, [s], [tree]) && Room(depth, nodes, text, [tree])
            && Nodes([tree]) == OwnNodes(graph[s].tree) + Nodes(parts)
            && TextOf([tree]) == OwnText(graph[s].tree) + TextOf(parts)
  {
    var tree := Assemble(graph[s], parts);
    Assembled(graph[s], parts);
    One(tree);
    UnfoldsNode(graph, s, tree);
  }

  lemma RoomFor(parts: seq<Topology>, depth: nat, nodes: nat, text: nat, tree: Topology)
    requires Room(depth, nodes, text, parts) && Room(depth, nodes + Nodes(parts), text + TextOf(parts), [tree])
    ensures Room(depth, nodes, text, parts + [tree])
    ensures Nodes(parts + [tree]) == Nodes(parts) + Nodes([tree])
            && TextOf(parts + [tree]) == TextOf(parts) + TextOf([tree])
  {
    SumsConcat(parts, [tree]);
  }

  lemma {:induction false} UnfoldsMore(graph: Graph, names: seq<string>, parts: seq<Topology>, tree: Topology)
    requires |parts| < |names| && Unfolds(graph, names[..|parts|], parts) && Unfolds(graph, [names[|parts|]], [tree])
    ensures Unfolds(graph, names[..|parts| + 1], parts + [tree])
  {
    var front, name := names[..|parts|], names[|parts|];
    assert names[..|parts| + 1] == front + [name];
    UnfoldsConcat(graph, front, parts, [name], [tree]);
  }

  // The doors with the corridors of the first `d` put in.
  predicate FilledTo(sh: Shallow, doors: seq<Door>, parts: seq<Topology>, d: nat)
    requires sh.tree.kind.EndpointSpace? && |sh.corridors| == |sh.tree.kind.doors|
  {
    && d <= |sh.corridors| && |parts| == |Present(sh.corridors[..d])|
    && doors == FillDoors(sh.tree.kind.doors[..d], sh.corridors[..d], parts) + sh.tree.kind.doors[d..]
  }

  lemma NextName(sh: Shallow, d: nat, n: nat)
    requires d < |sh.corridors| && sh.corridors[d].Some? && n == |Present(sh.corridors[..d])|
    ensures |sh.children| + n < |Names(sh)| && Names(sh)[|sh.children| + n] == sh.corridors[d].value
  {
    PresentUpTo(sh.corridors, d);
  }

  lemma FillNext<E>(sh: Shallow, doors: seq<Door>, parts: seq<Topology>, d: nat, corridor: Result<Topology, E>)
    requires sh.tree.kind.EndpointSpace? && |sh.corridors| == |sh.tree.kind.doors| && d < |sh.corridors|
    requires FilledTo(sh, doors, parts, d) && (corridor.Ok? <==> sh.corridors[d].Some?)
    ensures d < |doors| && doors[d] == sh.tree.kind.doors[d]
    ensures corridor.Ok? ==>
              FilledTo(sh, doors[d := doors[d].(confined := Some(corridor.value))], parts + [corridor.value], d + 1)
    ensures corridor.Err? ==> FilledTo(sh, doors, parts, d + 1)
  {
    var all, done := sh.tree.kind.doors, FillDoors(sh.tree.kind.doors[..d], sh.corridors[..d], parts);
    FilledLength(all[..d], sh.corridors[..d], parts);
    assert all[d..] == [all[d]] + all[d + 1..];
    FillOneMore(all, sh.corridors, d, parts, if corridor.Ok? then Some(corridor.value) else None);
    if corridor.Err? {
      assert parts + [] == parts;
      assert doors == (done + [all[d]]) + all[d + 1..];
    } else {
      assert doors[d := doors[d].(confined := Some(corridor.value))]
          == (done + [all[d].(confined := Some(corridor.value))]) + all[d + 1..];
    }
  }

  lemma FillDone(sh: Shallow, doors: seq<Door>, parts: seq<Topology>)
    requires sh.tree.kind.EndpointSpace? && |sh.corridors| == |sh.tree.kind.doors|
    requires FilledTo(sh, doors, parts, |sh.corridors|)
    ensures |parts| == |Present(sh.corridors)| && doors == FillDoors(sh.tree.kind.doors, sh.corridors, parts)
  {
    var all := sh.tree.kind.doors;
    assert all[..|all|] == all && sh.corridors[..|all|] == sh.corridors && all[|all|..] == [];
    assert doors == FillDoors(all, sh.corridors, parts) + [];
  }

  lemma {:induction false} FilledLength(doors: seq<Door>, corridors: seq<Option<string>>, parts: seq<Topology>)
    requires |corridors| == |doors| && |parts| == |Present(corridors)|
    ensures |FillDoors(doors, corridors, parts)| == |doors|
  {
    if doors != [] {
      FilledLength(doors[1..], corridors[1..], if corridors[0].Some? then parts[1..] else parts);
    }
  }

  lemma NextFails(graph: Graph, names: seq<string>, parts: seq<Topology>, depth: nat, nodes: nat, text: nat,
                  failure: Failure)
    requires |parts| < |names| && Unfolds(graph, names[..|parts|], parts)
    requires Deserved(graph, [names[|parts|]], depth, nodes + Nodes(parts), text + TextOf(parts), failure)
    ensures Deserved(graph, names, depth, nodes, text, failure)
  {
    forall forest | Unfolds(graph, names, forest) ensures failure.Over? && !Room(depth, nodes, text, forest) {
      UnfoldsAt(graph, names, forest, |parts|);
      UnfoldsOnce(graph, names[..|parts|], parts, forest[..|parts|]);
      NoRoomAfter(forest, |parts|, depth, nodes, text);
    }
  }

  // Room for all is room for each after those before it.
  lemma NoRoomAfter(forest: seq<Topology>, k: nat, depth: nat, nodes: nat, text: nat)
    requires k < |forest|
    ensures Room(depth, nodes, text, forest) ==>
              Room(depth, nodes + Nodes(forest[..k]), text + TextOf(forest[..k]), [forest[k]])
  {
    SumsAt(forest, k);
  }

  lemma {:induction false} PresentUpTo(corridors: seq<Option<string>>, d: nat)
    requires d <= |corridors|
    ensures Present(corridors) == Present(corridors[..d]) + Present(corridors[d..])
    ensures d < |corridors| ==>
              && Present(corridors[..d + 1])
                 == Present(corridors[..d]) + (if corridors[d].Some? then [corridors[d].value] else [])
              && Present(corridors[d..])
                 == (if corridors[d].Some? then [corridors[d].value] else []) + Present(corridors[d + 1..])
    decreases d
  {
    if d < |corridors| {
      assert corridors[d..][1..] == corridors[d + 1..];
    }
    if d == 0 {
      assert corridors[0..] == corridors && corridors[..0] == [];
      assert [] + Present(corridors) == Present(corridors);
      if corridors != [] {
        assert corridors[..1][1..] == [];
      }
    } else {
      PresentUpTo(corridors[1..], d - 1);
      assert corridors[..d][1..] == corridors[1..][..d - 1] && corridors[d..] == corridors[1..][d - 1..];
      if d < |corridors| {
        assert corridors[..d + 1][1..] == corridors[1..][..d] && corridors[d + 1..] == corridors[1..][d..];
      }
    }
  }

  function Filled(door: Door, corridor: Option<Topology>): Door {
    if corridor.Some? then door.(confined := corridor) else door
  }

  // One more door filled in, or passed over.
  lemma {:induction false} FillOneMore(doors: seq<Door>, corridors: seq<Option<string>>, d: nat, parts: seq<Topology>,
                                       corridor: Option<Topology>)
    requires |corridors| == |doors| && d < |doors| && |parts| == |Present(corridors[..d])|
    requires corridor.Some? <==> corridors[d].Some?
    ensures var more: seq<Topology> := parts + if corridor.Some? then [corridor.value] else [];
            && |more| == |Present(corridors[..d + 1])|
            && FillDoors(doors[..d + 1], corridors[..d + 1], more)
               == FillDoors(doors[..d], corridors[..d], parts) + [Filled(doors[d], corridor)]
    decreases d
  {
    PresentUpTo(corridors, d);
    var more: seq<Topology> := parts + if corridor.Some? then [corridor.value] else [];
    FirstDoor(doors, corridors, d);
    if d == 0 {
      assert [doors[0]][1..] == [] && [corridors[0]][1..] == [];
    } else {
      var given := corridors[0].Some?;
      var rest := if given then parts[1..] else parts;
      assert (if given then more[1..] else more) == rest + if corridor.Some? then [corridor.value] else [];
      FillOneMore(doors[1..], corridors[1..], d - 1, rest, corridor);
      var first := [Filled(doors[0], if given then Some(parts[0]) else None)];
      var last := [Filled(doors[d], corridor)];
      assert FillDoors(doors[..d], corridors[..d], parts)
             == first + FillDoors(doors[1..][..d - 1], corridors[1..][..d - 1], rest);
      assert first + (FillDoors(doors[1..][..d - 1], corridors[1..][..d - 1], rest) + last)
          == first + FillDoors(doors[1..][..d - 1], corridors[1..][..d - 1], rest) + last;
    }
  }

  lemma FirstDoor(doors: seq<Door>, corridors: seq<Option<string>>, d: nat)
    requires |corridors| == |doors| && d < |doors|
    ensures doors[..d + 1][1..] == doors[1..][..d] && corridors[..d + 1][1..] == corridors[1..][..d]
    ensures d > 0 ==> doors[..d][1..] == doors[1..][..d - 1] && corridors[..d][1..] == corridors[1..][..d - 1]
    ensures d == 0 ==> doors[..1] == [doors[0]] && corridors[..1] == [corridors[0]]
    ensures d == 0 ==> doors[..0] == [] && corridors[..0] == []
  {
  }

  // Expanding a root gives a tree exactly when the graph states one within the bounds, and gives that
  // one, which the measure accepts. A refusal for a cycle or a missing node is of a graph that states
  // none at all, and every other is for a bound. A cycle anywhere below the root is refused.
  method Expand(graph: Graph, root: string) returns (r: Result<Topology, Failure>)
    requires WellGraph(graph)
    ensures r.Ok? <==> exists tree :: States(graph, root, tree) && Bounded(tree)
    ensures r.Ok? ==> States(graph, root, r.value) && Visit([Frame(r.value, 1, None)], Tally(0, {}, 0, 0)).Ok?
    ensures r.Err? && !r.error.Over? ==> forall tree :: !States(graph, root, tree)
    ensures (exists chain :: CycleBelow(graph, root, chain)) ==> r.Err?
  {
    var expander := new Expander(graph);
    assert [] + [root] == [root];
    r := expander.Node(root);
    forall tree ensures Unfolds(graph, [root], [tree]) <==> States(graph, root, tree) {
      UnfoldsIffStates(graph, root, tree);
    }
    if r.Ok? {
      MeasureIsBounded(r.value);
      if chain :| CycleBelow(graph, root, chain) {
        CycleBelowUnfoldsNever(graph, root, chain, r.value);
      }
    }
  }
}
