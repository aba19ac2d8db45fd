/** From a drawn view to the layout engine's input. */
module ViewLayout {
  import opened PairGraph
  import opened Modularity
  import opened Ordering
  import opened Groups
  import opened GroupIndex
  import opened Model
  import opened Display
  import opened Pipeline
  import Build
  import L = Layout

  // ----- every view is within the layout's budget -----

  lemma FirstWalletsDiffer(m: Labels, classes: seq<seq<nat>>, i: nat, j: nat)
    requires Classes(m, classes) && i < j < |classes|
    ensures classes[i][0] != classes[j][0]
  {
    assert Class(m, classes[i]) && Class(m, classes[j]) && Before(classes[i], classes[j]);
  }

  /** There are no more groups than wallets. */
  lemma GroupsWithinWallets(m: Labels, classes: seq<seq<nat>>)
    requires Classes(m, classes)
    ensures |classes| <= |m|
  {
    forall i | 0 <= i < |classes| ensures classes[i] != [] && classes[i][0] < |m| {
      assert Class(m, classes[i]);
    }
    var firsts := seq(|classes|, i requires 0 <= i < |classes| => classes[i][0]);
    forall i, j | 0 <= i < j < |firsts| ensures firsts[i] != firsts[j] {
      FirstWalletsDiffer(m, classes, i, j);
    }
    DistinctBelow(firsts, |m|);
  }

  lemma LinkHoldsPair(g: Graph, of: seq<nat>, n: nat, links: seq<Link>, j: nat)
    requires Complete(g, of, n, links) && j < |links|
    ensures |links[j].indices| >= 1
  {
  }

  /** There are no more links than pairs that cross. */
  lemma {:induction false} LinksWithinPairs(g: Graph, of: seq<nat>, n: nat, links: seq<Link>, j: nat)
    requires Complete(g, of, n, links) && j <= |links|
    ensures j <= SumExternal(links, j)
  {
    if j > 0 {
      LinksWithinPairs(g, of, n, links, j - 1);
      LinkHoldsPair(g, of, n, links, j - 1);
    }
  }

  ghost predicate WithinBudget(d: Drawing) {
    && |d.nodes| <= L.MAX_NODES && |d.edges| == |d.weights| <= L.MAX_EDGES
    && forall e :: 0 <= e < |d.weights| ==> d.weights[e] >= 1
  }

  lemma OverviewWithinBudget(o: Opened, number: Build.Reader, eps: real, classes: seq<seq<nat>>)
    requires Open(o, number, eps, classes)
    ensures WithinBudget(OverviewDrawing(o.index))
  {
    GroupsWithinWallets(o.membership, classes);
    LinksWithinPairs(o.model.graph, o.index.groupOf, |classes|, o.index.links, |o.index.links|);
    forall e | 0 <= e < |o.index.links| ensures |o.index.links[e].indices| >= 1 {
      LinkHoldsPair(o.model.graph, o.index.groupOf, |classes|, o.index.links, e);
    }
  }

  lemma ChosenWithinBudget(model: Model, c: Chosen)
    requires model.Valid() && Closed(model, c) && |model.wallets| <= Build.MAX_WALLETS && |model.rows| <= Build.MAX_ROWS
    ensures WithinBudget(ChosenDrawing(model, c))
  {
    DistinctBelow(c.members, |model.wallets|);
    DistinctBelow(c.indices, |model.rows|);
  }

  /** Every view of an opened model is within the budget, and its weights are at least one. */
  lemma DrawnWithinBudget(o: Opened, view: View, d: Drawing, number: Build.Reader, eps: real, classes: seq<seq<nat>>)
    requires Open(o, number, eps, classes) && DrawnAs(o, view, d)
    ensures WithinBudget(d)
  {
    if view == Overview {
      OverviewWithinBudget(o, number, eps, classes);
    } else {
      var c :| Closed(o.model, c) && Shows(o, view, c) && d == ChosenDrawing(o.model, c);
      ChosenWithinBudget(o.model, c);
    }
  }

  // ----- layout -----

  /** Start, size and mark of a node. */
  datatype Spot = Spot(x: real, y: real, size: real, fixed: bool)

  function NodesAt(d: Drawing, spot: nat -> Spot): seq<L.Node> {
    seq(|d.nodes|, i requires 0 <= i < |d.nodes| =>
      L.Node(d.nodes[i], spot(i).x, spot(i).y, spot(i).size, spot(i).fixed))
  }

  function EdgesOf(d: Drawing): seq<L.Edge>
    requires |d.edges| == |d.weights|
  {
    seq(|d.edges|, e requires 0 <= e < |d.edges| => L.Edge(d.edges[e].source, d.edges[e].target, d.weights[e] as real))
  }

  /** A simple graph within the budget passes the layout's budget and its validation. */
  method LayOutDrawing(d: Drawing, spot: nat -> Spot) returns (refused: bool)
    requires Simple(d.nodes, d.edges) && WithinBudget(d)
    ensures !refused
  {
    var nodes, edges := NodesAt(d, spot), EdgesOf(d);
    L.SimpleIsDrawn(nodes, edges, d.nodes, d.edges);
    var input := L.LayoutInput(nodes, edges);
    if input.None? {
      return true;
    }
    L.InputValid(input.value.0[..], input.value.1[..], nodes, edges);
    refused := L.ValidateInput(input.value.0, input.value.1);
  }

  /** Draw a view and lay it out: wherever the nodes start, the layout refuses no view that draws. */
  method LayOut(o: Opened, view: View, spot: nat -> Spot, ghost number: Build.Reader, ghost eps: real,
                ghost classes: seq<seq<nat>>)
    returns (drawn: bool, refused: bool)
    requires Open(o, number, eps, classes) && (view.GroupView? ==> view.id < |o.index.groups|)
    ensures !refused
    ensures PrintsApart(o.model.wallets) ==> (drawn <==> !(view.WalletView? && view.wallet !in o.model.wallets))
    ensures view == Overview ==> drawn
  {
    var failed, thrown, d := Draw(o, view, number, eps, classes);
    drawn, refused := !failed && !thrown, false;
    if drawn {
      DrawnWithinBudget(o, view, d, number, eps, classes);
      refused := LayOutDrawing(d, spot);
    }
  }
}
