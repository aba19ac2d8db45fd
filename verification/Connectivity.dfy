/** How the groups of a run hang together: through the wallets that have carried their label, and in
    themselves for as long as no departure cuts them. */
module Connectivity {
  import opened PairGraph
  import opened Modularity
  import opened LocalMoving
  import opened Walks

  /** The labelling of state `(p, k)`. */
  ghost function At(r: Rule, p: nat, k: nat): (m: Labels)
    requires r.g.Valid() && k <= r.g.order
    ensures Labelling(r.g, m)
  {
    Sweep(r, Run(r, p), k)
  }

  // ----- joined through carriers -----

  ghost predicate Carries(r: Rule, p: nat, k: nat, c: nat, w: nat)
    requires r.g.Valid()
  {
    k <= r.g.order && w < r.g.order && At(r, p, k)[w] == c
  }

  /** At this state or an earlier one the wallet carries the label. */
  ghost predicate Carried(r: Rule, p: nat, k: nat, c: nat, w: nat)
    requires r.g.Valid()
  {
    exists p': nat, k': nat :: Earlier(p', k', p, k) && Carries(r, p', k', c, w)
  }

  ghost function Carriers(r: Rule, p: nat, k: nat, c: nat): set<nat>
    requires r.g.Valid()
  {
    set w: nat | w < r.g.order && Carried(r, p, k, c, w)
  }

  lemma CarriersGrow(r: Rule, p: nat, k: nat, p': nat, k': nat, c: nat)
    requires r.g.Valid() && Earlier(p, k, p', k')
    ensures Carriers(r, p, k, c) <= Carriers(r, p', k', c)
  {
    forall w | w in Carriers(r, p, k, c) ensures Carried(r, p', k', c, w) {
      var a: nat, b: nat :| Earlier(a, b, p, k) && Carries(r, a, b, c, w);
      assert Earlier(a, b, p', k');
    }
  }

  lemma CarriesIsCarried(r: Rule, p: nat, k: nat, c: nat, w: nat)
    requires r.g.Valid() && Carries(r, p, k, c, w)
    ensures w in Carriers(r, p, k, c)
  {
    assert Earlier(p, k, p, k);
  }

  /** A visit that gives its wallet a new label finds a wallet with that label beside it. */
  lemma VisitFollows(r: Rule, m: Labels, v: nat) returns (u: nat)
    requires r.Valid() && Labelling(r.g, m) && v < r.g.order && Visit(r, m, v) != m
    ensures u < r.g.order && Linked(r.g, v, u) && m[u] == Visit(r, m, v)[v]
  {
    BestDominates(r, m, v, r.g.order);
    var b := Best(r, m, v, r.g.order);
    var e :| 0 <= e < r.g.Size() && r.g.Touches(e, v) && m[r.g.Other(e, v)] == b;
    u := r.g.Other(e, v);
  }

  /** Who carries a label is joined to the wallet it names, through wallets that have carried it. */
  lemma {:induction false} CarrierJoined(r: Rule, p: nat, k: nat, c: nat, w: nat)
    requires r.Valid() && Carries(r, p, k, c, w)
    ensures JoinedIn(r.g, Carriers(r, p, k, c), w, c)
    decreases p, k
  {
    CarriesIsCarried(r, p, k, c, w);
    if k > 0 {
      VisitedJoined(r, p, k, c, w);
    } else if p > 0 {
      CarrierJoined(r, p - 1, r.g.order, c, w);
      CarriersGrow(r, p - 1, r.g.order, p, 0, c);
      JoinedInMore(r.g, Carriers(r, p - 1, r.g.order, c), Carriers(r, p, 0, c), w, c);
    } else {
      JoinedToSelf(r.g, Carriers(r, 0, 0, c), w);
    }
  }

  lemma {:induction false} VisitedJoined(r: Rule, p: nat, k: nat, c: nat, w: nat)
    requires r.Valid() && Carries(r, p, k, c, w) && k > 0
    ensures JoinedIn(r.g, Carriers(r, p, k, c), w, c)
    decreases p, k, 0
  {
    var m := At(r, p, k - 1);
    CarriersGrow(r, p, k - 1, p, k, c);
    if m[w] == c {
      CarrierJoined(r, p, k - 1, c, w);
      JoinedInMore(r.g, Carriers(r, p, k - 1, c), Carriers(r, p, k, c), w, c);
    } else {
      var u := VisitFollows(r, m, k - 1);
      CarrierJoined(r, p, k - 1, c, u);
      JoinedInMore(r.g, Carriers(r, p, k - 1, c), Carriers(r, p, k, c), u, c);
      CarriesIsCarried(r, p, k, c, w);
      JoinedStep(r.g, Carriers(r, p, k, c), w, u, c);
    }
  }

  /** At every reachable state the wallets that have carried one label so far are connected. */
  lemma CarriersConnected(r: Rule, p: nat, k: nat, c: nat)
    requires r.Valid()
    ensures Connected(r.g, Carriers(r, p, k, c))
  {
    var s := Carriers(r, p, k, c);
    forall w | w in s ensures JoinedIn(r.g, s, w, c) {
      var a: nat, b: nat :| Earlier(a, b, p, k) && Carries(r, a, b, c, w);
      CarrierJoined(r, a, b, c, w);
      CarriersGrow(r, a, b, p, k, c);
      JoinedInMore(r.g, Carriers(r, a, b, c), s, w, c);
    }
    ConnectedAround(r.g, s, c);
  }

  /** At every reachable state, wallets that share a label are joined by a walk in the graph. */
  lemma SameLabelJoined(r: Rule, p: nat, k: nat, u: nat, v: nat)
    requires r.Valid() && k <= r.g.order && u < r.g.order && v < r.g.order && At(r, p, k)[u] == At(r, p, k)[v]
    ensures Joined(r.g, u, v)
  {
    var c := At(r, p, k)[u];
    CarriesIsCarried(r, p, k, c, u);
    CarriesIsCarried(r, p, k, c, v);
    CarriersConnected(r, p, k, c);
    JoinedInMore(r.g, Carriers(r, p, k, c), Carriers(r, p, k, c), u, v);
  }

  // ----- connected in themselves -----

  /** The wallets that carry a label. */
  ghost function Group(m: Labels, c: nat): set<nat> {
    set v: nat | v < |m| && m[v] == c
  }

  /** A group that no wallet has left is connected in itself. */
  lemma UnleftConnected(r: Rule, p: nat, k: nat, c: nat)
    requires r.Valid() && k <= r.g.order && forall w :: w in Carriers(r, p, k, c) ==> At(r, p, k)[w] == c
    ensures Connected(r.g, Group(At(r, p, k), c))
  {
    forall w | w in Group(At(r, p, k), c) ensures w in Carriers(r, p, k, c) {
      CarriesIsCarried(r, p, k, c, w);
    }
    assert Group(At(r, p, k), c) == Carriers(r, p, k, c);
    CarriersConnected(r, p, k, c);
  }

  /** Every group is connected in itself. */
  ghost predicate Together(g: Graph, m: Labels)
    requires g.Valid()
  {
    forall c :: Connected(g, Group(m, c))
  }

  /** The visit cuts nothing: its wallet stays, or the members of its group that it is paired with are
      joined without it. */
  ghost predicate CutsNothing(r: Rule, m: Labels, v: nat)
    requires Labelling(r.g, m) && v < r.g.order
  {
    Visit(r, m, v) == m || TiesStay(r.g, Group(m, m[v]), v)
  }

  /** A visit keeps all groups connected exactly when it cuts nothing. */
  lemma VisitTogether(r: Rule, m: Labels, v: nat)
    requires r.Valid() && Labelling(r.g, m) && v < r.g.order && Together(r.g, m)
    ensures Together(r.g, Visit(r, m, v)) <==> CutsNothing(r, m, v)
  {
    var m' := Visit(r, m, v);
    if m' != m {
      var u := VisitFollows(r, m, v);
      var a, b := m[v], m'[v];
      assert Group(m', a) == Group(m, a) - {v} && Group(m', b) == Group(m, b) + {v};
      LeavingSplits(r.g, Group(m, a), v);
      EnteringKeeps(r.g, Group(m, b), v, u);
      forall c | c != a && c != b ensures Connected(r.g, Group(m', c)) {
        assert Group(m', c) == Group(m, c);
      }
    }
  }

  lemma StartTogether(g: Graph)
    requires g.Valid()
    ensures Together(g, Start(g.order))
  {
    forall c ensures Connected(g, Group(Start(g.order), c)) {
      forall a | a in Group(Start(g.order), c) ensures JoinedIn(g, Group(Start(g.order), c), a, c) {
        JoinedToSelf(g, Group(Start(g.order), c), a);
      }
      ConnectedAround(g, Group(Start(g.order), c), c);
    }
  }

  ghost predicate TogetherAt(r: Rule, p: nat, k: nat)
    requires r.g.Valid()
  {
    k <= r.g.order ==> Together(r.g, At(r, p, k))
  }

  /** Visit number `k` of pass `p`, both counted from zero, cuts nothing. */
  ghost predicate CutsNothingAt(r: Rule, p: nat, k: nat)
    requires r.g.Valid()
  {
    k < r.g.order ==> CutsNothing(r, At(r, p, k), k)
  }

  ghost predicate TogetherUntil(r: Rule, p: nat, k: nat)
    requires r.g.Valid()
  {
    forall p': nat, k': nat :: Earlier(p', k', p, k) ==> TogetherAt(r, p', k')
  }

  ghost predicate UncutUntil(r: Rule, p: nat, k: nat)
    requires r.g.Valid()
  {
    forall p': nat, k': nat :: Earlier(p', k' + 1, p, k) ==> CutsNothingAt(r, p', k')
  }

  lemma LastVisit(r: Rule, p: nat, k: nat)
    requires r.Valid() && 0 < k <= r.g.order && (TogetherUntil(r, p, k - 1) <==> UncutUntil(r, p, k - 1))
    ensures TogetherUntil(r, p, k) <==> UncutUntil(r, p, k)
  {
    assert Earlier(p, k, p, k) && Earlier(p, k - 1, p, k - 1);
    forall p': nat, k': nat ensures Earlier(p', k', p, k) <==> Earlier(p', k', p, k - 1) || (p' == p && k' == k) {
    }
    assert TogetherUntil(r, p, k) <==> TogetherUntil(r, p, k - 1) && TogetherAt(r, p, k);
    assert UncutUntil(r, p, k) <==> UncutUntil(r, p, k - 1) && CutsNothingAt(r, p, k - 1);
    if TogetherUntil(r, p, k - 1) {
      assert TogetherAt(r, p, k - 1);
      VisitTogether(r, At(r, p, k - 1), k - 1);
    }
  }

  lemma PassEnd(r: Rule, p: nat)
    requires r.Valid() && p > 0
    ensures TogetherUntil(r, p, 0) <==> TogetherUntil(r, p - 1, r.g.order)
    ensures UncutUntil(r, p, 0) <==> UncutUntil(r, p - 1, r.g.order)
  {
    assert Earlier(p - 1, r.g.order, p - 1, r.g.order);
    assert At(r, p, 0) == At(r, p - 1, r.g.order);
  }

  /** Over whole runs: all groups of all states so far are connected in themselves if and only if no
      visit so far has cut the group that its wallet left. */
  lemma {:induction false} TogetherIffUncut(r: Rule, p: nat, k: nat)
    requires r.Valid() && k <= r.g.order
    ensures TogetherUntil(r, p, k) <==> UncutUntil(r, p, k)
    decreases p, k
  {
    if k > 0 {
      TogetherIffUncut(r, p, k - 1);
      LastVisit(r, p, k);
    } else if p > 0 {
      TogetherIffUncut(r, p - 1, r.g.order);
      PassEnd(r, p);
    } else {
      StartTogether(r.g);
    }
  }
}
