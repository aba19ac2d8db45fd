/** The local-moving stage as the display code runs it: membership and group totals are arrays
    overwritten wallet by wallet, and a candidate map is filled from the adjacency list. */
module Partition {
  import opened PairGraph
  import opened Modularity
  import opened LocalMoving
  import opened Walks
  import opened Connectivity
  import opened Ascent
  import opened Model
  import Ordering

  /** The pass limit of the display code. */
  const PASS_LIMIT: nat := 20

  ghost predicate Pairs(g: Graph, es: seq<nat>) {
    forall i :: 0 <= i < |es| ==> es[i] < g.Size()
  }

  /** Weight that the listed pairs carry from `v` into group `c`. */
  ghost function TieOver(g: Graph, m: Labels, v: nat, c: nat, es: seq<nat>): nat
    requires Labelling(g, m) && Pairs(g, es)
  {
    if es == [] then 0
    else
      var e := es[|es| - 1];
      TieOver(g, m, v, c, es[..|es| - 1]) + if m[g.Other(e, v)] == c then g.weight[e] else 0
  }

  lemma IncidentPairs(g: Graph, v: nat, k: nat)
    requires g.Valid() && k <= g.Size()
    ensures Pairs(g, Incident(g, v, k))
  {
    var es := Incident(g, v, k);
    forall i | 0 <= i < |es| ensures es[i] < g.Size() {
      assert es[i] in es;
    }
  }

  lemma {:induction false} TieOverIncident(g: Graph, m: Labels, v: nat, c: nat, k: nat)
    requires Labelling(g, m) && k <= g.Size() && Pairs(g, Incident(g, v, k))
    ensures TieOver(g, m, v, c, Incident(g, v, k)) == Tie(g, m, v, c, k)
  {
    if k > 0 {
      IncidentPairs(g, v, k - 1);
      TieOverIncident(g, m, v, c, k - 1);
      if g.Touches(k - 1, v) {
        var es, es' := Incident(g, v, k), Incident(g, v, k - 1);
        assert es == es' + [k - 1];
        assert es[..|es| - 1] == es';
      }
    }
  }

  /** Weights are positive, so a group is reached exactly when it is tied. */
  lemma {:induction false} TiedIffReached(g: Graph, m: Labels, v: nat, c: nat, k: nat)
    requires Labelling(g, m) && k <= g.Size()
    ensures Tie(g, m, v, c, k) > 0 <==> exists e :: 0 <= e < k && g.Touches(e, v) && m[g.Other(e, v)] == c
  {
    if k > 0 {
      TiedIffReached(g, m, v, c, k - 1);
    }
  }

  lemma {:induction false} BestSkips(r: Rule, m: Labels, v: nat, from: nat, to: nat)
    requires Labelling(r.g, m) && v < r.g.order && from <= to <= r.g.order
    requires forall c :: from <= c < to ==> !Neighbouring(r.g, m, v, c)
    ensures Best(r, m, v, to) == Best(r, m, v, from)
  {
    if from < to {
      BestSkips(r, m, v, from, to - 1);
    }
  }

  function Get(weights: map<nat, nat>, c: nat): nat {
    if c in weights then weights[c] else 0
  }

  /** What the candidate map and its key list hold after the listed pairs. */
  ghost predicate Gathered(g: Graph, m: Labels, v: nat, es: seq<nat>, weights: map<nat, nat>, keys: seq<nat>)
    requires Labelling(g, m) && Pairs(g, es)
  {
    && Ordering.Distinct(keys)
    && (forall c :: c in keys <==> c in weights)
    && (forall c :: c in weights ==> weights[c] > 0)
    && (forall c: nat :: Get(weights, c) == TieOver(g, m, v, c, es))
  }

  lemma GatherStep(g: Graph, m: Labels, v: nat, es: seq<nat>, e: nat, weights: map<nat, nat>, keys: seq<nat>,
                   weights': map<nat, nat>, keys': seq<nat>)
    requires Labelling(g, m) && Pairs(g, es) && e < g.Size() && Gathered(g, m, v, es, weights, keys)
    requires weights' == weights[m[g.Other(e, v)] := Get(weights, m[g.Other(e, v)]) + g.weight[e]]
    requires keys' == if m[g.Other(e, v)] in weights then keys else keys + [m[g.Other(e, v)]]
    ensures Pairs(g, es + [e]) && Gathered(g, m, v, es + [e], weights', keys')
  {
    forall c: nat ensures Pairs(g, es + [e]) && Get(weights', c) == TieOver(g, m, v, c, es + [e]) {
      assert (es + [e])[..|es|] == es;
      assert Get(weights, c) == TieOver(g, m, v, c, es);
    }
  }

  lemma GatheredAll(g: Graph, m: Labels, v: nat, weights: map<nat, nat>, keys: seq<nat>)
    requires Labelling(g, m) && Pairs(g, Incident(g, v, g.Size()))
    requires Gathered(g, m, v, Incident(g, v, g.Size()), weights, keys)
    ensures forall c :: c in weights <==> Neighbouring(g, m, v, c)
    ensures forall c :: Get(weights, c) == Tie(g, m, v, c, g.Size())
  {
    forall c: nat
      ensures c in weights <==> Neighbouring(g, m, v, c)
      ensures Get(weights, c) == Tie(g, m, v, c, g.Size())
    {
      assert Get(weights, c) == TieOver(g, m, v, c, Incident(g, v, g.Size()));
      TieOverIncident(g, m, v, c, g.Size());
      TiedIffReached(g, m, v, c, g.Size());
    }
  }

  /** The map from neighbouring group to connecting weight, and its keys as they were added. */
  method NeighbourWeights(model: Model, membership: array<nat>, node: nat)
    returns (weights: map<nat, nat>, keys: seq<nat>)
    requires model.Valid() && node < model.graph.order && Labelling(model.graph, membership[..])
    ensures Ordering.Distinct(keys)
    ensures forall c :: c in keys <==> c in weights
    ensures forall c :: c in weights <==> Neighbouring(model.graph, membership[..], node, c)
    ensures forall c :: Get(weights, c) == Tie(model.graph, membership[..], node, c, model.graph.Size())
  {
    weights, keys := map[], [];
    var es := model.adjacent[node];
    ghost var g, m := model.graph, membership[..];
    IncidentPairs(g, node, g.Size());
    for i := 0 to |es|
      invariant Pairs(g, es[..i]) && Gathered(g, m, node, es[..i], weights, keys)
    {
      var edge := es[i];
      var group := membership[model.graph.Other(edge, node)];
      ghost var weights', keys' := weights, keys;
      if group !in weights {
        keys := keys + [group];
      }
      weights := weights[group := Get(weights, group) + model.graph.weight[edge]];
      GatherStep(g, m, node, es[..i], edge, weights', keys', weights, keys);
      assert es[..i + 1] == es[..i] + [edge];
    }
    assert es[..|es|] == es;
    GatheredAll(g, m, node, weights, keys);
  }

  /** The running totals agree with the membership. */
  ghost predicate TotalsMatch(g: Graph, m: Labels, totals: seq<int>)
    requires Labelling(g, m)
  {
    && |totals| == g.order
    && forall c :: 0 <= c < g.order ==> totals[c] == Total(g, m, c, g.order)
  }

  /** The totals while `v` is taken out of its group. */
  ghost predicate RestsMatch(g: Graph, m: Labels, v: nat, totals: seq<int>)
    requires Labelling(g, m) && v < g.order
  {
    && |totals| == g.order
    && forall c :: 0 <= c < g.order ==> totals[c] == Rest(g, m, v, c)
  }

  /** The candidates in ascending order bound the labels already compared. */
  ghost predicate CandidatesOf(r: Rule, m: Labels, v: nat, candidates: seq<nat>)
    requires Labelling(r.g, m)
  {
    && (forall c :: c in candidates <==> Neighbouring(r.g, m, v, c))
    && (forall i, j :: 0 <= i < j < |candidates| ==> candidates[i] < candidates[j])
    && (forall i :: 0 <= i < |candidates| ==> candidates[i] < r.g.order)
  }

  ghost function Reached(r: Rule, candidates: seq<nat>, i: nat): nat
    requires i <= |candidates|
  {
    if i < |candidates| then candidates[i] else r.g.order
  }

  lemma NextCandidate(r: Rule, m: Labels, v: nat, candidates: seq<nat>, i: nat)
    requires Labelling(r.g, m) && v < r.g.order && CandidatesOf(r, m, v, candidates) && i < |candidates|
    ensures Reached(r, candidates, i + 1) <= r.g.order
    ensures Best(r, m, v, Reached(r, candidates, i + 1)) == Best(r, m, v, candidates[i] + 1)
  {
    var from, to := candidates[i] + 1, Reached(r, candidates, i + 1);
    forall c | from <= c < to ensures !Neighbouring(r.g, m, v, c) {
      if c in candidates {
        var j :| 0 <= j < |candidates| && candidates[j] == c;
      }
    }
    BestSkips(r, m, v, from, to);
  }

  lemma FirstCandidate(r: Rule, m: Labels, v: nat, candidates: seq<nat>)
    requires Labelling(r.g, m) && v < r.g.order && CandidatesOf(r, m, v, candidates)
    ensures Reached(r, candidates, 0) <= r.g.order
    ensures Best(r, m, v, Reached(r, candidates, 0)) == m[v]
  {
    BestSkips(r, m, v, 0, Reached(r, candidates, 0));
  }

  lemma SortedCandidates(r: Rule, m: Labels, v: nat, keys: seq<nat>)
    requires Labelling(r.g, m) && Ordering.Distinct(keys) && forall c :: c in keys <==> Neighbouring(r.g, m, v, c)
    ensures CandidatesOf(r, m, v, Ordering.Sort(keys, Ordering.Below))
  {
    var candidates := Ordering.Sort(keys, Ordering.Below);
    Ordering.AscendingNumbers(keys);
    Ordering.SameItems(keys, candidates);
    forall i | 0 <= i < |candidates| ensures candidates[i] < r.g.order {
      assert candidates[i] in candidates;
    }
  }

  /** Scan the candidates in ascending order and keep the first that is strictly better. */
  method Choose(model: Model, eps: real, mass: nat, membership: array<nat>, totals: array<int>, node: nat,
                weights: map<nat, nat>, candidates: seq<nat>) returns (best: nat)
    requires model.Valid() && node < model.graph.order && Labelling(model.graph, membership[..])
    requires mass == Mass(model.graph, model.graph.order)
    requires RestsMatch(model.graph, membership[..], node, totals[..])
    requires CandidatesOf(Greedy(model.graph, eps), membership[..], node, candidates)
    requires forall c :: Get(weights, c) == Tie(model.graph, membership[..], node, c, model.graph.Size())
    ensures best == Best(Greedy(model.graph, eps), membership[..], node, model.graph.order)
  {
    ghost var g, m, r := model.graph, membership[..], Greedy(model.graph, eps);
    best := membership[node];
    var gain := Gain(Get(weights, best), model.strength[node], totals[best], mass);
    FirstCandidate(r, m, node, candidates);
    for i := 0 to |candidates|
      invariant Reached(r, candidates, i) <= g.order && best < g.order
      invariant best == Best(r, m, node, Reached(r, candidates, i)) && gain == r.score(m, node, best)
    {
      var group := candidates[i];
      var candidate := Gain(Get(weights, group), model.strength[node], totals[group], mass);
      assert group in candidates && candidate == r.score(m, node, group);
      NextCandidate(r, m, node, candidates, i);
      if candidate > gain + eps {
        best, gain := group, candidate;
      }
    }
  }

  lemma TakeOut(g: Graph, m: Labels, v: nat, totals: seq<int>)
    requires Labelling(g, m) && v < g.order && TotalsMatch(g, m, totals)
    ensures RestsMatch(g, m, v, totals[m[v] := totals[m[v]] - Strength(g, v, g.Size())])
  {
  }

  lemma PutBack(g: Graph, m: Labels, v: nat, b: nat, totals: seq<int>)
    requires Labelling(g, m) && v < g.order && b < g.order && RestsMatch(g, m, v, totals)
    ensures TotalsMatch(g, m[v := b], totals[b := totals[b] + Strength(g, v, g.Size())])
  {
    var totals' := totals[b := totals[b] + Strength(g, v, g.Size())];
    forall c | 0 <= c < g.order ensures totals'[c] == Total(g, m[v := b], c, g.order) {
      TotalOfMove(g, m, v, b, c, g.order);
    }
  }

  /** Visit one wallet: take its strength out of its group, choose, and put it back. */
  method VisitNode(model: Model, eps: real, mass: nat, membership: array<nat>, totals: array<int>, node: nat)
    returns (moved: bool)
    requires model.Valid() && node < model.graph.order && Labelling(model.graph, membership[..])
    requires mass == Mass(model.graph, model.graph.order)
    requires TotalsMatch(model.graph, membership[..], totals[..])
    modifies membership, totals
    ensures Labelling(model.graph, old(membership[..]))
    ensures membership[..] == Visit(Greedy(model.graph, eps), old(membership[..]), node)
    ensures TotalsMatch(model.graph, membership[..], totals[..])
    ensures moved <==> membership[..] != old(membership[..])
  {
    ghost var g, m := model.graph, membership[..];
    var previous := membership[node];
    TakeOut(g, m, node, totals[..]);
    totals[previous] := totals[previous] - model.strength[node];
    assert RestsMatch(g, m, node, totals[..]);
    var weights, keys := NeighbourWeights(model, membership, node);
    var candidates := Ordering.Sort(keys, Ordering.Below);
    SortedCandidates(Greedy(g, eps), m, node, keys);
    var best := Choose(model, eps, mass, membership, totals, node, weights, candidates);
    PutBack(g, m, node, best, totals[..]);
    membership[node] := best;
    totals[best] := totals[best] + model.strength[node];
    moved := best != previous;
  }

  method SumStrengths(model: Model) returns (mass: nat)
    requires model.Valid()
    ensures mass == Mass(model.graph, model.graph.order)
  {
    mass := 0;
    for v := 0 to |model.strength|
      invariant mass == Mass(model.graph, v)
    {
      mass := mass + model.strength[v];
    }
  }

  lemma {:induction false} StartTotals(g: Graph, c: nat, k: nat)
    requires g.Valid() && c < g.order && k <= g.order
    ensures Labelling(g, Start(g.order))
    ensures Total(g, Start(g.order), c, k) == if c < k then Strength(g, c, g.Size()) else 0
  {
    if k > 0 {
      StartTotals(g, c, k - 1);
    }
  }

  /** Every wallet starts in its own group, whose total is its own strength. */
  method Singletons(model: Model) returns (labels: array<nat>, totals: array<int>)
    requires model.Valid()
    ensures fresh(labels) && fresh(totals) && labels[..] == Start(model.graph.order)
    ensures TotalsMatch(model.graph, labels[..], totals[..])
  {
    ghost var g := model.graph;
    labels := new nat[|model.wallets|](i => i);
    totals := new int[|model.wallets|](i requires 0 <= i < |model.strength| => model.strength[i]);
    assert labels[..] == Start(g.order);
    forall c | 0 <= c < g.order ensures totals[..][c] == Total(g, labels[..], c, g.order) {
      StartTotals(g, c, g.order);
    }
  }

  /** A pass from `m` after the wallets below `k`. */
  ghost predicate Swept(r: Rule, m: Labels, k: nat, labels: Labels, moves: nat)
    requires Labelling(r.g, m)
  {
    k <= r.g.order && labels == Sweep(r, m, k) && moves == Moves(r, m, k)
  }

  lemma SweptNext(r: Rule, m: Labels, k: nat, labels: Labels, moves: nat, next: Labels)
    requires Labelling(r.g, m) && k < r.g.order && Swept(r, m, k, labels, moves)
    requires Labelling(r.g, labels) && next == Visit(r, labels, k)
    ensures Swept(r, m, k + 1, next, moves + if next != labels then 1 else 0)
  {
  }

  /** One sweep over all wallets; `moves` counts the ones that changed group. */
  method SweepNodes(model: Model, eps: real, mass: nat, membership: array<nat>, totals: array<int>) returns (moves: nat)
    requires model.Valid() && Labelling(model.graph, membership[..])
    requires mass == Mass(model.graph, model.graph.order)
    requires TotalsMatch(model.graph, membership[..], totals[..])
    modifies membership, totals
    ensures Labelling(model.graph, old(membership[..]))
    ensures membership[..] == Sweep(Greedy(model.graph, eps), old(membership[..]), model.graph.order)
    ensures TotalsMatch(model.graph, membership[..], totals[..])
    ensures moves == Moves(Greedy(model.graph, eps), old(membership[..]), model.graph.order)
  {
    ghost var g, m, r := model.graph, membership[..], Greedy(model.graph, eps);
    moves := 0;
    for node := 0 to |model.wallets|
      invariant Swept(r, m, node, membership[..], moves) && Labelling(g, membership[..])
      invariant TotalsMatch(g, membership[..], totals[..])
    {
      ghost var before := membership[..];
      var moved := VisitNode(model, eps, mass, membership, totals, node);
      SweptNext(r, m, node, before, moves, membership[..]);
      if moved {
        moves := moves + 1;
      }
    }
  }

  /** `m` is the labelling after `passes` passes, all but the last of which moved some wallet, and
      `stable` says that the last one did not. */
  ghost predicate Progress(r: Rule, m: Labels, passes: nat, stable: bool)
    requires r.g.Valid()
  {
    && m == Run(r, passes)
    && (forall p :: 0 <= p < passes - 1 ==> Busy(r, p))
    && (stable <==> passes > 0 && !Busy(r, passes - 1))
  }

  lemma NextPass(r: Rule, m: Labels, passes: nat, m': Labels, moves: nat)
    requires r.g.Valid() && Progress(r, m, passes, false)
    requires m' == Sweep(r, m, r.g.order) && moves == Moves(r, m, r.g.order)
    ensures Progress(r, m', passes + 1, moves == 0)
  {
    assert Busy(r, passes) <==> moves > 0;
  }

  /** One more sweep, and whether it moved anything. */
  method OnePass(model: Model, eps: real, mass: nat, labels: array<nat>, totals: array<int>, ghost passes: nat)
    returns (stable: bool)
    requires model.Valid() && Labelling(model.graph, labels[..]) && mass == Mass(model.graph, model.graph.order)
    requires TotalsMatch(model.graph, labels[..], totals[..])
    requires Progress(Greedy(model.graph, eps), labels[..], passes, false)
    modifies labels, totals
    ensures Labelling(model.graph, labels[..]) && TotalsMatch(model.graph, labels[..], totals[..])
    ensures Progress(Greedy(model.graph, eps), labels[..], passes + 1, stable)
  {
    ghost var m, r := labels[..], Greedy(model.graph, eps);
    var moves := SweepNodes(model, eps, mass, labels, totals);
    NextPass(r, m, passes, labels[..], moves);
    stable := moves == 0;
  }

  /** Sweep until nothing moves or `limit` sweeps are done. */
  method Partition(model: Model, eps: real, limit: nat) returns (membership: seq<nat>, passes: nat, stable: bool)
    requires model.Valid()
    ensures passes <= limit && (!stable ==> passes == limit)
    ensures Progress(Greedy(model.graph, eps), membership, passes, stable)
  {
    ghost var r := Greedy(model.graph, eps);
    var labels, totals := Singletons(model);
    var mass := SumStrengths(model);
    passes, stable := 0, false;
    while passes < limit && !stable
      invariant passes <= limit && Labelling(model.graph, labels[..])
      invariant Progress(r, labels[..], passes, stable)
      invariant TotalsMatch(model.graph, labels[..], totals[..])
    {
      stable := OnePass(model, eps, mass, labels, totals, passes);
      passes := passes + 1;
    }
    membership := labels[..];
  }

  /** A `stable` result is a local optimum of modularity. Stable or not, two wallets with one label are
      joined in the graph, and if no visit has cut a group, every group is connected in itself. */
  lemma PartitionSound(g: Graph, r: Rule, m: Labels, passes: nat, stable: bool)
    requires g.Valid() && r == Greedy(g, r.eps) && r.eps >= 0.0 && Progress(r, m, passes, stable)
    ensures stable ==> LocallyOptimal(r, m)
    ensures forall u, v :: 0 <= u < g.order && 0 <= v < g.order && m[u] == m[v] ==> Joined(g, u, v)
    ensures UncutUntil(r, passes, 0) ==> Together(g, m)
  {
    TogetherIffUncut(r, passes, 0);
    assert UncutUntil(r, passes, 0) ==> TogetherAt(r, passes, 0);
    if stable {
      StableIffOptimal(g, Run(r, passes - 1), r);
    }
    forall u, v | 0 <= u < g.order && 0 <= v < g.order && m[u] == m[v] ensures Joined(g, u, v) {
      SameLabelJoined(r, passes, 0, u, v);
    }
  }

  /** A limit above twice the squared mass is never what ends the loop. */
  lemma LargeLimitIsStable(g: Graph, r: Rule, m: Labels, passes: nat, stable: bool, mass: nat, limit: nat)
    requires g.Valid() && r == Greedy(g, r.eps) && r.eps >= 0.0 && Progress(r, m, passes, stable)
    requires mass == Mass(g, g.order) && limit > 2 * (mass * mass) && (!stable ==> passes == limit)
    ensures stable
  {
    if !stable {
      BusyPassesBounded(g, r, passes, mass, mass * mass);
    }
  }
}
