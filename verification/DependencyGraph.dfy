/** Directed dependency graphs: walks, cycles and topological orders. */
module DependencyGraph {

  /** Direct dependencies of every node. */
  type Digraph = map<string, seq<string>>

  /** Every dependency is a node. */
  ghost predicate Resolved(g: Digraph) {
    forall n, d :: n in g && d in g[n] ==> d in g
  }

  ghost predicate Depends(g: Digraph, n: string, d: string) {
    n in g && d in g[n]
  }

  /** A walk along dependencies. */
  ghost predicate Walk(g: Digraph, p: seq<string>) {
    forall i :: 0 <= i < |p| - 1 ==> Step(g, p, i)
  }

  ghost predicate Step(g: Digraph, p: seq<string>, i: int)
    requires 0 <= i < |p| - 1
  {
    Depends(g, p[i], p[i + 1])
  }

  /** Some walk of at least one step ends where it starts. */
  ghost predicate Cyclic(g: Digraph) {
    exists p :: |p| >= 2 && Walk(g, p) && p[0] == p[|p| - 1]
  }

  /** All dependencies of the node at position `i` stand before it. */
  ghost predicate Ready(g: Digraph, order: seq<string>, i: nat)
    requires i < |order|
  {
    order[i] in g && forall d :: d in g[order[i]] ==> d in order[..i]
  }

  /** A list of different nodes, each after all its dependencies. */
  ghost predicate Topological(g: Digraph, order: seq<string>) {
    && (forall i, j :: 0 <= i < j < |order| ==> order[i] != order[j])
    && (forall i :: 0 <= i < |order| ==> Ready(g, order, i))
  }

  lemma TopologicalAppend(g: Digraph, order: seq<string>, n: string)
    requires Topological(g, order) && n in g && n !in order && forall d :: d in g[n] ==> d in order
    ensures Topological(g, order + [n])
  {
    var all := order + [n];
    forall i | 0 <= i < |all| ensures Ready(g, all, i) {
      assert all[..i] == order[..i];
      if i < |order| {
        assert Ready(g, order, i);
      } else {
        assert order[..i] == order;
      }
    }
  }

  /** Along a walk, positions in a topological order only go down. */
  lemma {:induction false} WalkDescends(g: Digraph, order: seq<string>, p: seq<string>, a: nat) returns (b: nat)
    requires Topological(g, order) && Walk(g, p) && |p| >= 2 && a < |order| && order[a] == p[0]
    ensures b < a && order[b] == p[|p| - 1]
    decreases |p|
  {
    assert Step(g, p, 0) && Ready(g, order, a);
    var k :| 0 <= k < a && order[k] == p[1];
    if |p| == 2 {
      b := k;
    } else {
      var q := p[1..];
      forall i | 0 <= i < |q| - 1 ensures Step(g, q, i) {
        assert Step(g, p, i + 1);
      }
      b := WalkDescends(g, order, q, k);
    }
  }

  /** A graph whose nodes can be listed topologically has no cycle. */
  lemma OrderedIsAcyclic(g: Digraph, order: seq<string>)
    requires Topological(g, order) && forall n :: n in g ==> n in order
    ensures !Cyclic(g)
  {
    forall p | |p| >= 2 && Walk(g, p) ensures p[0] != p[|p| - 1] {
      assert Step(g, p, 0);
      var a :| 0 <= a < |order| && order[a] == p[0];
      var b := WalkDescends(g, order, p, a);
    }
  }

  /** A walk that returns to one of its own nodes contains a cycle. */
  lemma ReturnIsCycle(g: Digraph, p: seq<string>, n: string)
    requires Walk(g, p + [n]) && n in p
    ensures Cyclic(g)
  {
    var j :| 0 <= j < |p| && p[j] == n;
    var all := p + [n];
    var q := all[j..];
    forall i | 0 <= i < |q| - 1 ensures Step(g, q, i) {
      assert Step(g, all, i + j);
    }
    assert |q| >= 2 && Walk(g, q) && q[0] == q[|q| - 1];
  }

  lemma WalkExtend(g: Digraph, p: seq<string>, n: string)
    requires Walk(g, p) && (p != [] ==> Depends(g, p[|p| - 1], n))
    ensures Walk(g, p + [n])
  {
    var all := p + [n];
    forall i | 0 <= i < |all| - 1 ensures Step(g, all, i) {
      if i < |p| - 1 {
        assert Step(g, p, i);
      }
    }
  }
}
