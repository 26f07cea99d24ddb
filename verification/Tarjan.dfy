/** Tarjan's algorithm as the include-cycle finder writes it: shared mutable
    tables, one recursive procedure, and a popping loop.  The graph maps a node
    to its successor list; a node that is not a key has no successors. */
module Tarjan {
  import opened Graphs
  import opened SearchState

  class Finder<T(==, !new)> {
    const graph: map<T, seq<T>>
    var counter: nat
    var stack: seq<T>
    var lowlinks: map<T, nat>
    var index: map<T, nat>
    var result: seq<seq<T>>

    constructor (graph: map<T, seq<T>>)
      ensures this.graph == graph && Snapshot() == Search([], map[], 0, []) && lowlinks == map[]
    {
      this.graph := graph;
      counter, stack, lowlinks, index, result := 0, [], map[], map[], [];
    }

    ghost function Snapshot(): Search<T>
      reads this
    {
      Search(stack, index, counter, result)
    }

    /** Visits everything reachable from node that is still unvisited.  grey holds
        the callers' nodes, universe bounds the recursion. */
    method StrongConnect(node: T, ghost grey: set<T>, ghost universe: set<T>)
      requires Inv(graph, Snapshot(), grey) && lowlinks.Keys == index.Keys
      requires node !in lowlinks && forall a :: a in grey ==> Reach(graph, a, node)
      requires Closed(graph, universe) && index.Keys <= universe && node in universe
      modifies this
      ensures Visited(graph, grey, node, old(Snapshot()), old(lowlinks), Snapshot(), lowlinks)
      ensures index.Keys <= universe
      decreases universe - index.Keys, 1
    {
      ghost var s0, low0 := Snapshot(), lowlinks;
      EnterCall(graph, grey, node, s0, low0);
      index := index[node := counter];
      lowlinks := lowlinks[node := counter];
      counter := counter + 1;
      stack := stack + [node];
      assert Snapshot() == Push(s0, node);

      var successors := if node in graph then graph[node] else [];
      var i := 0;
      TakeElements(successors, 0);
      while i < |successors|
        invariant 0 <= i <= |successors|
        invariant Visiting(graph, grey, node, Elements(successors[..i]), s0, low0, Snapshot(), lowlinks)
        invariant index.Keys <= universe
      {
        VisitSuccessor(node, successors[i], grey, universe, Elements(successors[..i]), s0, low0);
        TakeElements(successors, i);
        i := i + 1;
      }
      EmitIfRoot(node, grey, s0, low0);
    }

    /** The body of the loop over the successors of node. */
    method VisitSuccessor(node: T, successor: T, ghost grey: set<T>, ghost universe: set<T>, ghost done: set<T>,
                          ghost s0: Search<T>, ghost low0: map<T, nat>)
      requires Visiting(graph, grey, node, done, s0, low0, Snapshot(), lowlinks)
      requires successor in Successors(graph, node) && forall a :: a in grey ==> Reach(graph, a, node)
      requires Closed(graph, universe) && index.Keys <= universe
      modifies this
      ensures Visiting(graph, grey, node, done + {successor}, s0, low0, Snapshot(), lowlinks)
      ensures index.Keys <= universe
      decreases universe - index.Keys, 3
    {
      if successor !in lowlinks {
        VisitNew(node, successor, grey, universe, done, s0, low0);
      } else {
        AfterSeen(graph, grey, node, done, successor, s0, low0, Snapshot(), lowlinks);
        if successor in stack {
          lowlinks := lowlinks[node := Min(lowlinks[node], index[successor])];
        }
      }
    }

    /** The branch for a successor that has not been visited. */
    method VisitNew(node: T, successor: T, ghost grey: set<T>, ghost universe: set<T>, ghost done: set<T>,
                    ghost s0: Search<T>, ghost low0: map<T, nat>)
      requires Visiting(graph, grey, node, done, s0, low0, Snapshot(), lowlinks)
      requires successor in Successors(graph, node) && forall a :: a in grey ==> Reach(graph, a, node)
      requires Closed(graph, universe) && index.Keys <= universe && successor !in lowlinks
      modifies this
      ensures Visiting(graph, grey, node, done + {successor}, s0, low0, Snapshot(), lowlinks)
      ensures index.Keys <= universe
      decreases universe - index.Keys, 2
    {
      ghost var s, low := Snapshot(), lowlinks;
      GreyReach(graph, grey, node, successor);
      StrongConnect(successor, grey + {node}, universe);
      AfterRecursion(graph, grey, node, done, successor, s0, low0, s, low, Snapshot(), lowlinks);
      lowlinks := lowlinks[node := Min(lowlinks[node], lowlinks[successor])];
    }

    /** If node is a root, its component leaves the stack and joins the result. */
    method EmitIfRoot(node: T, ghost grey: set<T>, ghost s0: Search<T>, ghost low0: map<T, nat>)
      requires Inv(graph, s0, grey)
      requires Visiting(graph, grey, node, Elements(Successors(graph, node)), s0, low0, Snapshot(), lowlinks)
      modifies this`stack, this`result
      ensures Visited(graph, grey, node, s0, low0, Snapshot(), lowlinks)
    {
      if lowlinks[node] == index[node] {
        ghost var s := Snapshot();
        FinishAtRoot(graph, grey, node, s0, low0, s, lowlinks);
        RootPosition(s0, s, node);
        var component := PopComponent(node, |s0.stack|);
        result := result + [component];
        assert Snapshot() == s.(stack := s0.stack, result := s.result + [Reversed(s.stack[|s0.stack|..])]);
      } else {
        FinishElsewhere(graph, grey, node, s0, low0, Snapshot(), lowlinks);
      }
    }

    /** Pops up to and including node, which sits at position n. */
    method PopComponent(node: T, ghost n: nat) returns (component: seq<T>)
      requires n < |stack| && stack[n] == node && Distinct(stack)
      modifies this`stack
      ensures stack == old(stack)[..n]
      ensures component == Reversed(old(stack)[n..])
    {
      component := [];
      while true
        invariant n < |stack| && stack == old(stack)[..|stack|]
        invariant component == Reversed(old(stack)[|stack|..])
        decreases |stack|
      {
        var successor := stack[|stack| - 1];
        assert old(stack)[|stack| - 1..] == [successor] + old(stack)[|stack|..];
        stack := stack[..|stack| - 1];
        component := component + [successor];
        if successor == node { break; }
      }
    }
  }

  /** Every node that can occur: the keys and their successors. */
  ghost function Universe<T>(graph: map<T, seq<T>>): set<T> {
    graph.Keys + set k, y | k in graph && y in graph[k] :: y
  }

  /** x is a key of the graph or reachable from one. */
  ghost predicate FromKeys<T(!new)>(graph: map<T, seq<T>>, x: T) {
    exists k :: k in graph && Reach(graph, k, x)
  }

  /** With no call in progress the stack is empty. */
  lemma IdleStackEmpty<T(!new)>(g: map<T, seq<T>>, s: Search<T>)
    requires Inv(g, s, {})
    ensures s.stack == []
  {
    if s.stack != [] {
      NoAnchor(g, s, s.stack[0]);
      assert false;
    }
  }

  lemma NoAnchor<T(!new)>(g: map<T, seq<T>>, s: Search<T>, x: T)
    requires Ordered(s) && x in s.index
    ensures !HasAnchor(g, s, {}, x)
  {
  }

  /** Between two top-level calls: some keys are visited, nothing but their
      reach is, and no call is in progress. */
  ghost predicate Idle<T(!new)>(g: map<T, seq<T>>, s: Search<T>, low: map<T, nat>, keys: set<T>) {
    && Inv(g, s, {}) && low.Keys == s.index.Keys && keys <= s.index.Keys <= Universe(g)
    && forall x {:trigger FromKeys(g, x)} :: x in s.index ==> FromKeys(g, x)
  }

  lemma UniverseClosed<T(!new)>(g: map<T, seq<T>>)
    ensures Closed(g, Universe(g))
  {
  }

  lemma AfterTopCall<T(!new)>(g: map<T, seq<T>>, v: T, s: Search<T>, low: map<T, nat>, keys: set<T>,
                              t: Search<T>, tlow: map<T, nat>)
    requires Idle(g, s, low, keys) && v in g && Visited(g, {}, v, s, low, t, tlow) && t.index.Keys <= Universe(g)
    ensures Idle(g, t, tlow, keys + {v})
  {
    forall x | x in t.index ensures FromKeys(g, x) {
      if x !in s.index { assert Reach(g, v, x); }
    }
    forall x | x in keys ensures x in t.index {
      assert x in s.index;
    }
  }

  /** A finished search has emitted exactly what the keys reach. */
  lemma AllEmitted<T(!new)>(g: map<T, seq<T>>, s: Search<T>, low: map<T, nat>)
    requires Idle(g, s, low, g.Keys)
    ensures forall x :: x in Members(s.result) <==> FromKeys(g, x)
  {
    IdleStackEmpty(g, s);
    MembersClosed(g, s.result);
    forall x | FromKeys(g, x) ensures x in Members(s.result) {
      var k :| k in g && Reach(g, k, x);
      assert k in Members(s.result);
      ReachStaysInClosed(g, Members(s.result), k, x);
    }
  }

  /** order lists the keys in the order in which the dictionary yields them. */
  method StronglyConnectedComponents<T(==, !new)>(graph: map<T, seq<T>>, order: seq<T>)
    returns (result: seq<seq<T>>)
    requires forall x :: x in order <==> x in graph
    ensures Emitted(graph, result)
    ensures forall x :: x in Members(result) <==> FromKeys(graph, x)
  {
    var finder := new Finder<T>(graph);
    UniverseClosed(graph);
    TakeElements(order, 0);
    for i := 0 to |order|
      invariant finder.graph == graph
      invariant Idle(graph, finder.Snapshot(), finder.lowlinks, Elements(order[..i]))
    {
      var node := order[i];
      ghost var s, low := finder.Snapshot(), finder.lowlinks;
      TakeElements(order, i);
      if node !in finder.lowlinks {
        finder.StrongConnect(node, {}, Universe(graph));
        AfterTopCall(graph, node, s, low, Elements(order[..i]), finder.Snapshot(), finder.lowlinks);
      }
    }
    assert Elements(order) == graph.Keys;
    AllEmitted(graph, finder.Snapshot(), finder.lowlinks);
    result := finder.result;
  }

  /** Each visited node sits in exactly one tuple, two nodes share a tuple exactly
      when they reach each other, and an edge between two tuples leads from the
      later one to the earlier one. */
  lemma ComponentsPartition<T(!new)>(g: map<T, seq<T>>, result: seq<seq<T>>, i: nat, j: nat, x: T, y: T)
    requires Emitted(g, result) && i < |result| && j < |result|
    requires x in result[i] && y in result[j]
    ensures i == j <==> Reach(g, x, y) && Reach(g, y, x)
    ensures y in Successors(g, x) && i != j ==> j < i
    ensures Reach(g, x, y) ==> j <= i
  {
    assert SameClass(g, x, y) <==> y in result[i];
    if y in Successors(g, x) { assert OutBy(result, i, y); }
    if Reach(g, x, y) { ReachGoesDown(g, result, i, x, y); }
  }

  lemma ReachGoesDown<T(!new)>(g: map<T, seq<T>>, result: seq<seq<T>>, i: nat, x: T, y: T)
    requires Emitted(g, result) && i < |result| && x in result[i] && Reach(g, x, y)
    ensures OutBy(result, i, y)
  {
    var below := set k, z | 0 <= k <= i && z in result[k] :: z;
    forall u, v | u in below && v in Successors(g, u) ensures v in below {
      var k :| 0 <= k <= i && u in result[k];
      assert OutBy(result, k, v);
    }
    ReachStaysInClosed(g, below, x, y);
  }

  /** The script prints the tuples whose length is not one: a visited node is
      printed exactly when it lies on a cycle through some other node. */
  lemma PrintedIffOnCycle<T(!new)>(g: map<T, seq<T>>, result: seq<seq<T>>, i: nat, x: T)
    requires Emitted(g, result) && i < |result| && x in result[i]
    ensures |result[i]| != 1 <==> exists y :: y != x && Reach(g, x, y) && Reach(g, y, x)
  {
    var c := result[i];
    if |c| != 1 {
      var y := if c[0] == x then c[1] else c[0];
      assert SameClass(g, x, y);
    } else if y :| y != x && Reach(g, x, y) && Reach(g, y, x) {
      assert SameClass(g, x, y);
      assert false;
    }
  }
}
