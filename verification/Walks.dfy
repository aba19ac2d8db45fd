/** Walks along pairs of the graph, within a set of wallets or anywhere. */
module Walks {
  import opened PairGraph

  ghost predicate Linked(g: Graph, a: nat, b: nat)
    requires g.Valid()
  {
    exists e :: 0 <= e < g.Size() && g.Touches(e, a) && g.Other(e, a) == b
  }

  lemma LinkedSymmetric(g: Graph, a: nat, b: nat)
    requires g.Valid() && Linked(g, a, b)
    ensures Linked(g, b, a)
  {
    var e :| 0 <= e < g.Size() && g.Touches(e, a) && g.Other(e, a) == b;
    assert g.Touches(e, b) && g.Other(e, b) == a;
  }

  /** A walk along pairs of the graph. */
  ghost predicate Walk(g: Graph, p: seq<nat>)
    requires g.Valid()
  {
    |p| > 0 && forall i :: 0 <= i < |p| - 1 ==> Linked(g, p[i], p[i + 1])
  }

  ghost predicate Joined(g: Graph, a: nat, b: nat)
    requires g.Valid()
  {
    exists p :: Walk(g, p) && p[0] == a && p[|p| - 1] == b
  }

  /** A walk from `a` to `b` that never leaves the set. */
  ghost predicate WalkIn(g: Graph, s: set<nat>, p: seq<nat>, a: nat, b: nat)
    requires g.Valid()
  {
    Walk(g, p) && p[0] == a && p[|p| - 1] == b && forall i :: 0 <= i < |p| ==> p[i] in s
  }

  ghost predicate JoinedIn(g: Graph, s: set<nat>, a: nat, b: nat)
    requires g.Valid()
  {
    exists p :: WalkIn(g, s, p, a, b)
  }

  /** Any two wallets of the set are joined without leaving it. */
  ghost predicate Connected(g: Graph, s: set<nat>)
    requires g.Valid()
  {
    forall a, b :: a in s && b in s ==> JoinedIn(g, s, a, b)
  }

  lemma JoinedToSelf(g: Graph, s: set<nat>, a: nat)
    requires g.Valid() && a in s
    ensures JoinedIn(g, s, a, a)
  {
    assert WalkIn(g, s, [a], a, a);
  }

  lemma JoinedSymmetric(g: Graph, s: set<nat>, a: nat, b: nat)
    requires g.Valid() && JoinedIn(g, s, a, b)
    ensures JoinedIn(g, s, b, a)
  {
    var p :| WalkIn(g, s, p, a, b);
    var q := seq(|p|, i requires 0 <= i < |p| => p[|p| - 1 - i]);
    forall i | 0 <= i < |q| - 1 ensures Linked(g, q[i], q[i + 1]) {
      assert Linked(g, p[|p| - 2 - i], p[|p| - 2 - i + 1]);
      LinkedSymmetric(g, q[i + 1], q[i]);
    }
    assert WalkIn(g, s, q, b, a);
  }

  lemma JoinedTransitive(g: Graph, s: set<nat>, a: nat, b: nat, c: nat)
    requires g.Valid() && JoinedIn(g, s, a, b) && JoinedIn(g, s, b, c)
    ensures JoinedIn(g, s, a, c)
  {
    var p :| WalkIn(g, s, p, a, b);
    var q :| WalkIn(g, s, q, b, c);
    var r := p + q[1..];
    forall i | 0 <= i < |r| - 1 ensures Linked(g, r[i], r[i + 1]) {
      if i < |p| - 1 {
        assert Linked(g, p[i], p[i + 1]);
      } else {
        assert Linked(g, q[i - (|p| - 1)], q[i - (|p| - 1) + 1]);
      }
    }
    assert WalkIn(g, s, r, a, c);
  }

  lemma JoinedStep(g: Graph, s: set<nat>, a: nat, b: nat, c: nat)
    requires g.Valid() && a in s && Linked(g, a, b) && JoinedIn(g, s, b, c)
    ensures JoinedIn(g, s, a, c)
  {
    var p :| WalkIn(g, s, p, b, c);
    var q := [a] + p;
    forall i | 0 <= i < |q| - 1 ensures Linked(g, q[i], q[i + 1]) {
      assert i > 0 ==> Linked(g, p[i - 1], p[i]);
    }
    assert WalkIn(g, s, q, a, c);
  }

  lemma JoinedInMore(g: Graph, s: set<nat>, t: set<nat>, a: nat, b: nat)
    requires g.Valid() && s <= t && JoinedIn(g, s, a, b)
    ensures JoinedIn(g, t, a, b) && Joined(g, a, b)
  {
    var p :| WalkIn(g, s, p, a, b);
    assert WalkIn(g, t, p, a, b);
  }

  /** Wallets that are all joined to one of them are joined to each other. */
  lemma ConnectedAround(g: Graph, s: set<nat>, c: nat)
    requires g.Valid() && forall a :: a in s ==> JoinedIn(g, s, a, c)
    ensures Connected(g, s)
  {
    forall a, b | a in s && b in s ensures JoinedIn(g, s, a, b) {
      JoinedSymmetric(g, s, b, c);
      JoinedTransitive(g, s, a, c, b);
    }
  }

  // ----- adding and removing one wallet -----

  /** A wallet that is paired with a member keeps the set connected. */
  lemma EnteringKeeps(g: Graph, s: set<nat>, v: nat, u: nat)
    requires g.Valid() && Connected(g, s) && u in s && Linked(g, v, u)
    ensures Connected(g, s + {v})
  {
    forall a | a in s + {v} ensures JoinedIn(g, s + {v}, a, u) {
      JoinedToSelf(g, s, u);
      JoinedInMore(g, s, s + {v}, u, u);
      if a in s {
        JoinedInMore(g, s, s + {v}, a, u);
      } else {
        JoinedStep(g, s + {v}, v, u, u);
      }
    }
    ConnectedAround(g, s + {v}, u);
  }

  /** The members that `v` is paired with are joined within the set without `v`. */
  ghost predicate TiesStay(g: Graph, s: set<nat>, v: nat)
    requires g.Valid()
  {
    forall a, b :: a in s - {v} && b in s - {v} && Linked(g, a, v) && Linked(g, b, v) ==> JoinedIn(g, s - {v}, a, b)
  }

  /** A walk that ends in `v` passes some wallet paired with `v` before it meets `v`. */
  lemma {:induction false} ReachesTie(g: Graph, s: set<nat>, v: nat, p: seq<nat>, u: nat) returns (a: nat)
    requires g.Valid() && WalkIn(g, s, p, u, v) && u != v
    ensures a in s - {v} && Linked(g, a, v) && JoinedIn(g, s - {v}, u, a)
    decreases |p|
  {
    assert Linked(g, p[0], p[0 + 1]);
    if p[1] == v {
      a := u;
      JoinedToSelf(g, s - {v}, u);
    } else {
      var q := p[1..];
      forall i | 0 <= i < |q| - 1 ensures Linked(g, q[i], q[i + 1]) {
        assert Linked(g, p[i + 1], p[i + 1 + 1]);
      }
      a := ReachesTie(g, s, v, q, p[1]);
      JoinedStep(g, s - {v}, u, p[1], a);
    }
  }

  /** Removing a member keeps a connected set connected exactly when the members it is paired with
      stay joined. */
  lemma LeavingSplits(g: Graph, s: set<nat>, v: nat)
    requires g.Valid() && Connected(g, s) && v in s
    ensures Connected(g, s - {v}) <==> TiesStay(g, s, v)
  {
    if TiesStay(g, s, v) {
      forall x, y | x in s - {v} && y in s - {v} ensures JoinedIn(g, s - {v}, x, y) {
        assert JoinedIn(g, s, x, v) && JoinedIn(g, s, y, v);
        var p :| WalkIn(g, s, p, x, v);
        var q :| WalkIn(g, s, q, y, v);
        var a := ReachesTie(g, s, v, p, x);
        var b := ReachesTie(g, s, v, q, y);
        JoinedSymmetric(g, s - {v}, y, b);
        JoinedTransitive(g, s - {v}, x, a, b);
        JoinedTransitive(g, s - {v}, x, b, y);
      }
    }
  }
}
