/**
 The depth-first search over tracked pull requests. It reports a cycle exactly
 when the dependency graph has one, self-dependencies included, and each number
 it reports lies on a cycle.
 */
module DependencyCycles {
  import opened Basics

  /** The dependency list of each tracked number; untracked dependencies are not followed. */
  type Graph = map<int, seq<int>>

  predicate Edge(g: Graph, a: int, b: int) { a in g && b in g && b in g[a] }

  /** Consecutive numbers are joined by edges. */
  predicate DependencyWalk(g: Graph, p: seq<int>) {
    forall j, k {:trigger p[j], p[k]} | 0 <= j < |p| && 0 <= k < |p| && k == j + 1 :: Edge(g, p[j], p[k])
  }

  ghost predicate OnCycle(g: Graph, n: int) {
    exists p: seq<int> :: |p| >= 2 && DependencyWalk(g, p) && p[0] == n && p[|p| - 1] == n
  }

  ghost predicate HasCycle(g: Graph) { exists n :: OnCycle(g, n) }

  /** Every tracked dependency of a listed number is listed before it. */
  predicate Topological(g: Graph, order: seq<int>) {
    && Distinct(order)
    && forall k, d | 0 <= k < |order| && order[k] in g && d in g[order[k]] && d in g :: d in order[..k]
  }

  class CycleFinder {
    const graph: Graph
    var visiting: set<int>
    var visited: set<int>
    var issues: seq<int>
    ghost var order: seq<int>

    constructor (graph: Graph)
      ensures this.graph == graph && visiting == {} && visited == {} && issues == [] && order == []
    {
      this.graph := graph;
      visiting, visited, issues, order := {}, {}, [], [];
    }

    /** Reports are sound; while there are none, the visited numbers are in topological order. */
    ghost predicate Valid()
      reads this
    {
      && visited <= graph.Keys
      && visiting <= graph.Keys
      && visiting !! visited
      && (forall n | n in issues :: OnCycle(graph, n))
      && (issues == [] ==> Topological(graph, order) && visited == set n | n in order)
    }

    /** `stack` is the chain of calls in progress: a walk that leads to `number`. */
    method Visit(number: int, ghost stack: seq<int>)
      requires Valid() && number in graph
      requires visiting == (set n | n in stack) && DependencyWalk(graph, stack + [number])
      modifies this
      ensures Valid()
      ensures visiting == old(visiting)
      ensures old(visited) <= visited
      ensures old(issues) <= issues
      ensures number in visited || number in visiting
      ensures number in old(visiting) ==> issues != []
      decreases graph.Keys - visiting - visited
    {
      if number in visiting {
        RepeatIsCycle(graph, stack, number);
        issues := issues + [number];
        return;
      }
      if number in visited {
        return;
      }
      visiting := visiting + {number};
      var dependencies := graph[number];
      for k := 0 to |dependencies|
        invariant Valid()
        invariant visiting == old(visiting) + {number} && number !in visited
        invariant old(visited) <= visited
        invariant old(issues) <= issues
        invariant issues == [] ==> forall j | 0 <= j < k && dependencies[j] in graph :: dependencies[j] in visited
      {
        if dependencies[k] in graph {
          ghost var chain := stack + [number];
          assert visiting == set n | n in chain;
          WalkExtends(graph, chain, dependencies[k]);
          assert number in graph.Keys - old(visiting) - old(visited);
          assert graph.Keys - visiting - visited < graph.Keys - old(visiting) - old(visited);
          Visit(dependencies[k], chain);
        }
      }
      visiting := visiting - {number};
      visited := visited + {number};
      if issues == [] {
        FinishKeepsOrder(graph, order, number);
        order := order + [number];
      }
    }

    /** The whole search, over the tracked numbers in the order of the map. */
    method FindCycles(numbers: seq<int>)
      requires Valid() && visiting == {} && visited == {} && issues == []
      requires forall n :: n in numbers <==> n in graph
      modifies this
      ensures issues != [] <==> HasCycle(graph)
      ensures forall n | n in issues :: OnCycle(graph, n)
    {
      for k := 0 to |numbers|
        invariant Valid() && visiting == {}
        invariant forall j | 0 <= j < k :: numbers[j] in visited
      {
        Visit(numbers[k], []);
      }
      if issues == [] {
        assert forall n | n in graph :: n in visited;
        OrderExcludesCycles(graph, order);
      } else {
        assert OnCycle(graph, issues[0]);
      }
    }
  }

  lemma WalkExtends(g: Graph, chain: seq<int>, d: int)
    requires DependencyWalk(g, chain) && |chain| > 0 && Edge(g, chain[|chain| - 1], d)
    ensures DependencyWalk(g, chain + [d])
  {
    var p := chain + [d];
    forall j, k | 0 <= j < |p| && 0 <= k < |p| && k == j + 1 ensures Edge(g, p[j], p[k]) {
      if k < |chain| {
        assert p[j] == chain[j] && p[k] == chain[k];
      }
    }
  }

  /** Reaching a number that is still in progress closes a walk from it to itself. */
  lemma RepeatIsCycle(g: Graph, stack: seq<int>, number: int)
    requires number in stack && DependencyWalk(g, stack + [number])
    ensures OnCycle(g, number)
  {
    var i :| 0 <= i < |stack| && stack[i] == number;
    var p, whole := stack[i..] + [number], stack + [number];
    forall j, k | 0 <= j < |p| && 0 <= k < |p| && k == j + 1 ensures Edge(g, p[j], p[k]) {
      assert p[j] == whole[i + j] && p[k] == whole[i + k];
    }
    assert DependencyWalk(g, p) && p[0] == number && p[|p| - 1] == number;
  }

  lemma FinishKeepsOrder(g: Graph, order: seq<int>, number: int)
    requires Topological(g, order) && number !in order && number in g
    requires forall d | d in g[number] && d in g :: d in order
    ensures Topological(g, order + [number])
  {
    var after := order + [number];
    forall k, d | 0 <= k < |after| && after[k] in g && d in g[after[k]] && d in g ensures d in after[..k] {
      if k < |order| {
        assert d in order[..k];
        assert after[..k] == order[..k];
      } else {
        assert after[..k] == order;
      }
    }
  }

  function IndexOf(order: seq<int>, n: int): (k: nat)
    requires n in order
    ensures k < |order| && order[k] == n
  {
    if order[0] == n then 0 else 1 + IndexOf(order[1..], n)
  }

  /** Along a walk, positions in a topological order go down. */
  lemma {:induction false} WalkDescends(g: Graph, order: seq<int>, p: seq<int>)
    requires Topological(g, order) && (forall n | n in g :: n in order)
    requires DependencyWalk(g, p) && |p| >= 2
    ensures p[0] in order && p[|p| - 1] in order && IndexOf(order, p[|p| - 1]) < IndexOf(order, p[0])
  {
    assert Edge(g, p[0], p[1]);
    var k := IndexOf(order, p[0]);
    assert p[1] in order[..k];
    var i :| 0 <= i < k && order[i] == p[1];
    assert IndexOf(order, p[1]) == i;
    if |p| > 2 {
      var tail := p[1..];
      assert forall j | 0 <= j < |tail| :: tail[j] == p[j + 1];
      WalkDescends(g, order, tail);
    }
  }

  lemma OrderExcludesCycles(g: Graph, order: seq<int>)
    requires Topological(g, order) && forall n | n in g :: n in order
    ensures !HasCycle(g)
  {
    forall n ensures !OnCycle(g, n) {
      forall p: seq<int> | |p| >= 2 && DependencyWalk(g, p) ensures !(p[0] == n && p[|p| - 1] == n) {
        WalkDescends(g, order, p);
      }
    }
  }
}
