/** Wallet focus: the closed neighbourhood of one wallet over the whole graph. */
module Neighbourhood {
  import opened PairGraph
  import opened Walks
  import opened Model
  import opened Results
  import opened Ordering
  import opened Build

  datatype Projection = Projection(members: seq<nat>, indices: seq<nat>, centre: nat, extra: nat, incident: nat)

  /** The centre and everything one pair away from it. */
  ghost predicate Near(g: Graph, centre: nat, v: nat)
    requires g.Valid()
  {
    v == centre || Linked(g, centre, v)
  }

  /** A pair between two neighbours that leaves the centre out. */
  ghost predicate Extra(g: Graph, centre: nat, e: nat)
    requires g.Valid() && e < g.Size()
  {
    !g.Touches(e, centre) && Near(g, centre, g.left[e]) && Near(g, centre, g.right[e])
  }

  /** The neighbour-to-neighbour pairs below `k`, in ascending order. */
  ghost function Extras(g: Graph, centre: nat, k: nat): seq<nat>
    requires g.Valid() && k <= g.Size()
  {
    if k == 0 then []
    else
      var es := Extras(g, centre, k - 1);
      if Extra(g, centre, k - 1) then es + [k - 1] else es
  }

  lemma {:induction false} ExtrasExact(g: Graph, centre: nat, k: nat)
    requires g.Valid() && k <= g.Size()
    ensures forall e :: e in Extras(g, centre, k) <==> 0 <= e < k && Extra(g, centre, e)
    ensures Distinct(Extras(g, centre, k))
  {
    if k > 0 {
      ExtrasExact(g, centre, k - 1);
      DistinctAppend(Extras(g, centre, k - 1), k - 1);
    }
  }

  /** Both ends lie in the closed neighbourhood: the pairs of the induced subgraph. */
  ghost predicate Induced(g: Graph, centre: nat, e: nat)
    requires g.Valid() && e < g.Size()
  {
    Near(g, centre, g.left[e]) && Near(g, centre, g.right[e])
  }

  lemma InducedParts(g: Graph, centre: nat, e: nat)
    requires g.Valid() && e < g.Size()
    ensures Induced(g, centre, e) <==> g.Touches(e, centre) || Extra(g, centre, e)
  {
  }

  /** The wallets met after the listed pairs. */
  ghost predicate Met(g: Graph, centre: nat, es: seq<nat>, order: seq<nat>)
    requires g.Valid()
  {
    && Distinct(order) && centre in order
    && (forall i {:trigger Near(g, centre, order[i])} :: 0 <= i < |order| ==> Near(g, centre, order[i]))
    && (forall i {:trigger es[i]} :: 0 <= i < |es| ==>
          es[i] < g.Size() && g.left[es[i]] in order && g.right[es[i]] in order)
  }

  lemma MeetPair(g: Graph, centre: nat, es: seq<nat>, e: nat, order: seq<nat>)
    requires g.Valid() && Met(g, centre, es, order) && e < g.Size() && g.Touches(e, centre)
    ensures Met(g, centre, es + [e], Including(Including(order, g.left[e]), g.right[e]))
  {
    assert Linked(g, centre, g.Other(e, centre));
    IncludingKeeps(order, g.left[e]);
    IncludingKeeps(Including(order, g.left[e]), g.right[e]);
  }

  lemma MetAll(g: Graph, centre: nat, order: seq<nat>)
    requires g.Valid() && Met(g, centre, Incident(g, centre, g.Size()), order)
    ensures forall v: nat :: v in order <==> Near(g, centre, v)
  {
  }

  method CollectNeighbours(model: Model, centre: nat) returns (order: seq<nat>)
    requires model.Valid() && centre < model.graph.order
    ensures Met(model.graph, centre, Incident(model.graph, centre, model.graph.Size()), order)
  {
    ghost var g := model.graph;
    var es := model.adjacent[centre];
    order := [centre];
    for i := 0 to |es|
      invariant Met(g, centre, es[..i], order)
    {
      assert es[i] in es && es[..i + 1] == es[..i] + [es[i]];
      MeetPair(g, centre, es[..i], es[i], order);
      order := Including(Including(order, model.graph.left[es[i]]), model.graph.right[es[i]]);
    }
    assert es[..|es|] == es;
  }

  method MeetNeighbours(model: Model, centre: nat) returns (order: seq<nat>)
    requires model.Valid() && centre < model.graph.order
    ensures Distinct(order)
    ensures forall v: nat :: v in order <==> Near(model.graph, centre, v)
  {
    order := CollectNeighbours(model, centre);
    MetAll(model.graph, centre, order);
  }

  /** What the projection promises about its pair list and its two counters. */
  ghost predicate Projects(g: Graph, centre: nat, includeNeighbours: bool, p: Projection)
    requires g.Valid()
  {
    && p.centre == centre
    && (forall v: nat :: v in p.members <==> Near(g, centre, v))
    && (forall i, j :: 0 <= i < j < |p.members| ==> p.members[i] < p.members[j])
    && Distinct(p.indices)
    && (forall e :: e in p.indices
                    <==> 0 <= e < g.Size() && if includeNeighbours then Induced(g, centre, e) else g.Touches(e, centre))
    && p.incident == |Incident(g, centre, g.Size())|
    && p.extra == |Extras(g, centre, g.Size())|
    && |p.indices| == p.incident + if includeNeighbours then p.extra else 0
  }

  lemma JoinedLists(g: Graph, centre: nat)
    requires g.Valid()
    ensures Distinct(Incident(g, centre, g.Size()))
    ensures Distinct(Incident(g, centre, g.Size()) + Extras(g, centre, g.Size()))
    ensures forall e :: e in Incident(g, centre, g.Size()) + Extras(g, centre, g.Size())
                        <==> 0 <= e < g.Size() && Induced(g, centre, e)
  {
    var inc, ext := Incident(g, centre, g.Size()), Extras(g, centre, g.Size());
    ExtrasExact(g, centre, g.Size());
    forall e ensures e in inc + ext <==> 0 <= e < g.Size() && Induced(g, centre, e) {
      if 0 <= e < g.Size() {
        InducedParts(g, centre, e);
      }
    }
    forall i, j | 0 <= i < j < |inc + ext| ensures (inc + ext)[i] != (inc + ext)[j] {
      if i < |inc| <= j {
        assert inc[i] in inc && ext[j - |inc|] in ext;
      }
    }
  }

  /** The neighbour-to-neighbour pairs, counted always and listed where they are shown. */
  method CountExtras(model: Model, centre: nat, order: seq<nat>, includeNeighbours: bool)
    returns (added: seq<nat>, extra: nat)
    requires model.Valid() && forall v: nat :: v in order <==> Near(model.graph, centre, v)
    ensures var all := Extras(model.graph, centre, model.graph.Size());
            extra == |all| && added == if includeNeighbours then all else []
  {
    ghost var g := model.graph;
    added, extra := [], 0;
    for edge := 0 to model.graph.Size()
      invariant extra == |Extras(g, centre, edge)|
      invariant added == if includeNeighbours then Extras(g, centre, edge) else []
    {
      var a, b := model.graph.left[edge], model.graph.right[edge];
      if a == centre || b == centre || a !in order || b !in order {
        continue;
      }
      extra := extra + 1;
      if includeNeighbours {
        added := added + [edge];
      }
    }
  }

  lemma ProjectionPromises(g: Graph, centre: nat, includeNeighbours: bool, order: seq<nat>)
    requires g.Valid() && Distinct(order) && forall v: nat :: v in order <==> Near(g, centre, v)
    ensures var incident, extras := Incident(g, centre, g.Size()), Extras(g, centre, g.Size());
            Projects(g, centre, includeNeighbours,
                     Projection(Sort(order, Below), incident + (if includeNeighbours then extras else []), centre,
                                |extras|, |incident|))
  {
    JoinedLists(g, centre);
    AscendingNumbers(order);
    SameItems(order, Sort(order, Below));
    var incident := Incident(g, centre, g.Size());
    assert incident + [] == incident;
  }

  /** A wallet is met from the centre along some pair. */
  ghost predicate Meets(g: Graph, centre: nat, v: nat)
    requires g.Valid()
  {
    exists e :: 0 <= e < g.Size() && {g.left[e], g.right[e]} == {centre, v}
  }

  lemma MeetsIsNear(g: Graph, centre: nat, v: nat)
    requires g.Valid()
    ensures Near(g, centre, v) <==> v == centre || Meets(g, centre, v)
  {
    if v != centre {
      if Linked(g, centre, v) {
        var e :| 0 <= e < g.Size() && g.Touches(e, centre) && g.Other(e, centre) == v;
        assert {g.left[e], g.right[e]} == {centre, v};
      }
      if Meets(g, centre, v) {
        var e :| 0 <= e < g.Size() && {g.left[e], g.right[e]} == {centre, v};
        assert g.left[e] in {centre, v} && g.right[e] in {centre, v};
        assert centre in {g.left[e], g.right[e]} && v in {g.left[e], g.right[e]};
        assert g.Touches(e, centre) && g.Other(e, centre) == v;
      }
    }
  }

  lemma SizeOfList(s: seq<nat>, t: set<nat>)
    requires Distinct(s) && forall e: nat :: e in s <==> e in t
    ensures |s| == |t|
  {
    DistinctSize(s);
    var items := set e: nat | e in s;
    assert items == t && |items| == |s|;
  }

  /** The projection in terms of the pairs themselves: its members are the centre and the wallets it shares a
      pair with, and its counters are the numbers of pairs at the centre and of pairs between two others of
      them. */
  lemma ProjectionMeans(g: Graph, centre: nat, includeNeighbours: bool, p: Projection)
    requires g.Valid() && Projects(g, centre, includeNeighbours, p)
    ensures forall v: nat :: v in p.members <==> v == centre || Meets(g, centre, v)
    ensures p.incident == |set e: nat | e < g.Size() && (g.left[e] == centre || g.right[e] == centre)|
    ensures p.extra == |set e: nat | e < g.Size() && g.left[e] != centre && g.right[e] != centre
                                     && g.left[e] in p.members && g.right[e] in p.members|
  {
    forall v: nat ensures v in p.members <==> v == centre || Meets(g, centre, v) {
      MeetsIsNear(g, centre, v);
    }
    JoinedLists(g, centre);
    ExtrasExact(g, centre, g.Size());
    SizeOfList(Incident(g, centre, g.Size()),
               set e: nat | e < g.Size() && (g.left[e] == centre || g.right[e] == centre));
    SizeOfList(Extras(g, centre, g.Size()),
               set e: nat | e < g.Size() && g.left[e] != centre && g.right[e] != centre
                            && g.left[e] in p.members && g.right[e] in p.members);
  }

  /** The focus view of one wallet; an unknown wallet is an error. */
  method Focus(model: Model, lookup: map<Signer, nat>, wallet: Signer, includeNeighbours: bool)
    returns (r: Option<Projection>)
    requires model.Valid() && Inverts(lookup, model.wallets)
    ensures r.Some? <==> wallet in model.wallets
    ensures r.Some? ==>
              && r.value.centre < |model.wallets| && model.wallets[r.value.centre] == wallet
              && Projects(model.graph, r.value.centre, includeNeighbours, r.value)
  {
    if wallet !in lookup {
      return None;
    }
    var centre := lookup[wallet];
    var incident := model.adjacent[centre];
    var order := MeetNeighbours(model, centre);
    var added, extra := CountExtras(model, centre, order, includeNeighbours);
    ProjectionPromises(model.graph, centre, includeNeighbours, order);
    r := Some(Projection(Sort(order, Below), incident + added, centre, extra, |incident|));
  }
}
