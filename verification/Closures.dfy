/** Reachability along a finite-branching successor function, and the fact that lets a
    search stop: a set closed under successors holds everything reachable from it. */
module Closures {

  type Node = string

  type Successors = Node -> seq<Node>

  /** Each node of the walk is followed by one of its successors. */
  ghost predicate Walk(next: Successors, p: seq<Node>) {
    p != [] && forall i, j | 0 <= i < j < |p| && j == i + 1 :: p[j] in next(p[i])
  }

  ghost predicate WalkBetween(next: Successors, p: seq<Node>, from: Node, to: Node) {
    Walk(next, p) && p[0] == from && p[|p| - 1] == to
  }

  ghost predicate Reaches(next: Successors, from: Node, to: Node) {
    exists p :: WalkBetween(next, p, from, to)
  }

  ghost predicate Closed(next: Successors, nodes: set<Node>) {
    forall n | n in nodes :: Includes(nodes, next(n))
  }

  predicate Includes(nodes: set<Node>, some: seq<Node>) {
    forall k | 0 <= k < |some| :: some[k] in nodes
  }

  lemma ReachesItself(next: Successors, n: Node)
    ensures Reaches(next, n, n)
  {
    assert WalkBetween(next, [n], n, n);
  }

  lemma ReachesFurther(next: Successors, from: Node, mid: Node, to: Node)
    requires Reaches(next, from, mid) && to in next(mid)
    ensures Reaches(next, from, to)
  {
    var p :| WalkBetween(next, p, from, mid);
    var q := p + [to];
    assert WalkBetween(next, q, from, to);
  }

  lemma {:induction false} ReachesThrough(next: Successors, from: Node, mid: Node, p: seq<Node>, to: Node)
    requires Reaches(next, from, mid) && WalkBetween(next, p, mid, to)
    ensures Reaches(next, from, to)
    decreases |p|
  {
    if |p| > 1 {
      assert p[1] in next(p[0]);
      ReachesFurther(next, from, mid, p[1]);
      var rest := p[1..];
      forall i, j | 0 <= i < j < |rest| && j == i + 1 ensures rest[j] in next(rest[i]) {
        assert rest[j] == p[j + 1] && rest[i] == p[i + 1];
      }
      ReachesThrough(next, from, p[1], rest, to);
    }
  }

  lemma Transitive(next: Successors, from: Node, mid: Node, to: Node)
    requires Reaches(next, from, mid) && Reaches(next, mid, to)
    ensures Reaches(next, from, to)
  {
    var p :| WalkBetween(next, p, mid, to);
    ReachesThrough(next, from, mid, p, to);
  }

  lemma {:induction false} WalkStaysInside(next: Successors, nodes: set<Node>, p: seq<Node>)
    requires Closed(next, nodes) && Walk(next, p) && p[0] in nodes
    ensures p[|p| - 1] in nodes
    decreases |p|
  {
    if |p| > 1 {
      var front := p[..|p| - 1];
      WalkStaysInside(next, nodes, front);
      var last := front[|front| - 1];
      assert Includes(nodes, next(last));
      assert p[|p| - 1] in next(last);
    }
  }

  lemma ClosedHoldsReachable(next: Successors, nodes: set<Node>, from: Node)
    requires Closed(next, nodes) && from in nodes
    ensures forall to | Reaches(next, from, to) :: to in nodes
  {
    forall to | Reaches(next, from, to) ensures to in nodes {
      var p :| WalkBetween(next, p, from, to);
      WalkStaysInside(next, nodes, p);
    }
  }

  /** A node is reached when a walk leads to it from one of the starting nodes. */
  ghost predicate ReachedFrom(next: Successors, starts: seq<Node>, to: Node) {
    exists k | 0 <= k < |starts| :: Reaches(next, starts[k], to)
  }
}
