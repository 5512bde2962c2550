// One claim per name (crates/ikigai-core/src/declare.rs:264-295): a walk that never goes into a name
// met again still finds every name claimed twice.
//
// The check for a name that is also a cell the rendering mints is not part of this model.

module Claims {
  import opened Wrappers
  import opened Declarations

  // Every node anywhere in some trees.
  function AllNodes(forest: seq<Topology>): set<Topology>
    decreases SizeOf(forest)
  {
    if forest == [] then {}
    else
      EnclosedSmaller(forest[0]);
      {forest[0]} + AllNodes(Encloses(forest[0])) + AllNodes(forest[1..])
  }

  // Any two nodes anywhere in the tree with one name are one node.
  ghost predicate OneClaimEach(tree: Topology) {
    forall x, y | x in AllNodes([tree]) && y in AllNodes([tree]) && x.id.Some? && x.id == y.id :: x == y
  }

  // Two nodes of the tree that claim `name` and differ.
  ghost predicate ClaimedTwice(tree: Topology, name: string) {
    exists x, y :: x in AllNodes([tree]) && y in AllNodes([tree]) && x.id == y.id == Some(name) && x != y
  }

  lemma {:induction false} MembersAreNodes(forest: seq<Topology>, x: Topology)
    requires x in forest
    ensures x in AllNodes(forest) && forall y | y in Encloses(x) :: y in AllNodes(forest)
    decreases |forest|
  {
    EnclosedSmaller(forest[0]);
    if x == forest[0] {
      forall y | y in Encloses(x) ensures y in AllNodes(forest) {
        EnclosedMembers(Encloses(x), y);
      }
    } else {
      assert forest == [forest[0]] + forest[1..];
      MembersAreNodes(forest[1..], x);
    }
  }

  lemma {:induction false} EnclosedMembers(forest: seq<Topology>, x: Topology)
    requires x in forest
    ensures x in AllNodes(forest)
    decreases |forest|
  {
    EnclosedSmaller(forest[0]);
    if x != forest[0] {
      assert forest == [forest[0]] + forest[1..];
      EnclosedMembers(forest[1..], x);
    }
  }

  // What a node of some trees encloses is a node of them.
  lemma {:induction false} NodesEnclose(forest: seq<Topology>, x: Topology)
    requires x in AllNodes(forest)
    ensures forall y | y in Encloses(x) :: y in AllNodes(forest)
    decreases SizeOf(forest)
  {
    EnclosedSmaller(forest[0]);
    if x == forest[0] {
      MembersAreNodes(forest, x);
    } else if x in AllNodes(Encloses(forest[0])) {
      NodesEnclose(Encloses(forest[0]), x);
    } else {
      NodesEnclose(forest[1..], x);
    }
  }

  // What every visited node encloses is visited or waits.
  ghost predicate Followed(done: set<Topology>, stack: seq<Topology>) {
    forall x, y | x in done && y in Encloses(x) :: y in done || y in stack
  }

  lemma {:induction false} FollowedReachesAll(done: set<Topology>, forest: seq<Topology>)
    requires Followed(done, []) && forall x | x in forest :: x in done
    ensures AllNodes(forest) <= done
    decreases SizeOf(forest)
  {
    if forest != [] {
      EnclosedSmaller(forest[0]);
      assert forest[0] in forest;
      FollowedReachesAll(done, Encloses(forest[0]));
      assert forall x | x in forest[1..] :: x in forest;
      FollowedReachesAll(done, forest[1..]);
    }
  }

  // Each name stands for the visited node that claims it.
  ghost predicate Claimed(done: set<Topology>, first: map<string, Topology>) {
    && (forall x | x in done && x.id.Some? :: x.id.value in first && first[x.id.value] == x)
    && (forall name | name in first :: first[name] in done && first[name].id == Some(name))
  }

  // The nodes waiting and visited are the tree's own.
  ghost predicate Inside(tree: Topology, done: set<Topology>, stack: seq<Topology>) {
    && (forall x | x in done :: x in AllNodes([tree]))
    && (forall x | x in stack :: x in AllNodes([tree]))
    && (tree in done || tree in stack)
  }

  // Everything visited so far is followed, claimed and the tree's.
  ghost predicate Walked(tree: Topology, done: set<Topology>, first: map<string, Topology>, stack: seq<Topology>) {
    Followed(done, stack) && Claimed(done, first) && Inside(tree, done, stack)
  }

  // Walk with an explicit stack, next on top, and refuse a name met again on a different node. A
  // name met again on an equal one is not gone into.
  method CheckClaims(tree: Topology) returns (r: Result<(), string>)
    ensures r.Ok? <==> OneClaimEach(tree)
    ensures r.Err? ==> ClaimedTwice(tree, r.error)
  {
    var first: map<string, Topology> := map[];
    var stack := [tree];
    ghost var done: set<Topology> := {};
    MembersAreNodes([tree], tree);
    while stack != []
      invariant Walked(tree, done, first, stack)
      decreases SizeOf(stack)
    {
      var node := stack[|stack| - 1];
      var rest := stack[..|stack| - 1];
      assert stack == rest + [node];
      PopShrinks(rest, node);
      if node.id.Some? && node.id.value in first {
        if first[node.id.value] != node {
          DiffersFromFirst(tree, done, first, rest, node);
          return Err(node.id.value);
        }
        SkipKeeps(tree, done, first, rest, node);
        stack := rest;
      } else {
        TakeKeeps(tree, done, first, rest, node);
        if node.id.Some? {
          first := first[node.id.value := node];
        }
        done := done + {node};
        stack := rest + Backwards(Encloses(node));
      }
    }
    FollowedReachesAll(done, [tree]);
    return Ok(());
  }

  lemma DiffersFromFirst(tree: Topology, done: set<Topology>, first: map<string, Topology>, rest: seq<Topology>,
                         node: Topology)
    requires Walked(tree, done, first, rest + [node])
    requires node.id.Some? && node.id.value in first && first[node.id.value] != node
    ensures ClaimedTwice(tree, node.id.value)
  {
    assert node in rest + [node];
    var earlier := first[node.id.value];
    assert earlier in AllNodes([tree]) && node in AllNodes([tree]) && earlier.id == node.id == Some(node.id.value);
  }

  lemma SkipKeeps(tree: Topology, done: set<Topology>, first: map<string, Topology>, rest: seq<Topology>,
                  node: Topology)
    requires Walked(tree, done, first, rest + [node])
    requires node.id.Some? && node.id.value in first && first[node.id.value] == node
    ensures Walked(tree, done, first, rest)
  {
    assert node in done;
    forall x | x in rest ensures x in AllNodes([tree]) {
      assert x in rest + [node];
    }
  }

  lemma TakeKeeps(tree: Topology, done: set<Topology>, first: map<string, Topology>, rest: seq<Topology>,
                  node: Topology)
    requires Walked(tree, done, first, rest + [node]) && (node.id.Some? ==> node.id.value !in first)
    ensures Walked(tree, done + {node}, if node.id.Some? then first[node.id.value := node] else first,
                   rest + Backwards(Encloses(node)))
  {
    assert node in rest + [node];
    NodesEnclose([tree], node);
    PushFollows(done, done + {node}, rest + [node], rest, node);
    forall x | x in rest + Backwards(Encloses(node)) ensures x in AllNodes([tree]) {
      assert x in rest ==> x in rest + [node];
    }
  }

  function Backwards(s: seq<Topology>): (r: seq<Topology>)
    ensures forall x :: x in r <==> x in s
    ensures SizeOf(r) == SizeOf(s)
  {
    if s == [] then []
    else
      SizeOfConcat(Backwards(s[1..]), [s[0]]);
      assert s == [s[0]] + s[1..] && [s[0]][1..] == [];
      Backwards(s[1..]) + [s[0]]
  }

  lemma PopShrinks(rest: seq<Topology>, node: Topology)
    ensures SizeOf(rest) < SizeOf(rest + [node])
    ensures SizeOf(rest + Backwards(Encloses(node))) < SizeOf(rest + [node])
  {
    SizeOfConcat(rest, [node]);
    SizeOfConcat(rest, Backwards(Encloses(node)));
    EnclosedSmaller(node);
    assert [node][1..] == [];
  }

  lemma PushFollows(was: set<Topology>, done: set<Topology>, before: seq<Topology>, rest: seq<Topology>, node: Topology)
    requires Followed(was, before) && before == rest + [node] && done == was + {node}
    ensures Followed(done, rest + Backwards(Encloses(node)))
  {
  }
}
