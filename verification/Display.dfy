/** The drawn graph: what graph insertion refuses, and which tables draw. */
module Display {
  import opened Model
  import opened Ordering
  import opened Decimal
  import opened Build

  /** One edge as it is inserted: its key and the keys of its ends. */
  datatype Edge = Edge(key: string, source: string, target: string)

  /** The two edges join the same unordered pair of nodes. */
  predicate Parallel(x: Edge, y: Edge) {
    (x.source == y.source && x.target == y.target) || (x.source == y.target && x.target == y.source)
  }

  /** Nodes and edges of a simple graph: unique keys, known ends, no loops, no parallel edges. */
  ghost predicate Simple(nodes: seq<string>, edges: seq<Edge>) {
    && Distinct(nodes)
    && (forall i :: 0 <= i < |edges| ==>
          edges[i].source in nodes && edges[i].target in nodes && edges[i].source != edges[i].target)
    && (forall i, j :: 0 <= i < j < |edges| ==> edges[i].key != edges[j].key && !Parallel(edges[i], edges[j]))
  }

  /** Insert the nodes one by one. */
  method InsertNodes(nodes: seq<string>) returns (thrown: bool)
    ensures thrown <==> !Distinct(nodes)
  {
    for i := 0 to |nodes|
      invariant Distinct(nodes[..i])
    {
      DistinctAppend(nodes[..i], nodes[i]);
      assert nodes[..i + 1] == nodes[..i] + [nodes[i]];
      if nodes[i] in nodes[..i] {
        DistinctPrefix(nodes, i + 1);
        return true;
      }
    }
    assert nodes[..|nodes|] == nodes;
    thrown := false;
  }

  /** Insert nodes and then edges one by one, throwing on the first the graph refuses. */
  method InsertAll(nodes: seq<string>, edges: seq<Edge>) returns (thrown: bool)
    ensures thrown <==> !Simple(nodes, edges)
  {
    thrown := InsertNodes(nodes);
    if thrown {
      return;
    }
    for i := 0 to |edges|
      invariant Distinct(nodes) && Simple(nodes, edges[..i])
    {
      var e := edges[i];
      SimpleAppend(nodes, edges[..i], e);
      SimplePrefix(nodes, edges, i + 1);
      assert edges[..i + 1] == edges[..i] + [e];
      if e.source !in nodes || e.target !in nodes || e.source == e.target
         || exists j :: 0 <= j < i && (edges[..i][j].key == e.key || Parallel(edges[..i][j], e)) {
        return true;
      }
    }
    assert edges[..|edges|] == edges;
  }

  /** What insertion refuses: two nodes with one key, an edge with an unknown end or from a node to itself, two
      edges with one key, or two edges between the same two nodes. */
  lemma Refused(nodes: seq<string>, edges: seq<Edge>)
    ensures !Simple(nodes, edges) <==>
            || (exists i, j :: 0 <= i < j < |nodes| && nodes[i] == nodes[j])
            || (exists i :: 0 <= i < |edges| && (edges[i].source !in nodes || edges[i].target !in nodes))
            || (exists i :: 0 <= i < |edges| && edges[i].source == edges[i].target)
            || (exists i, j :: 0 <= i < j < |edges| && edges[i].key == edges[j].key)
            || (exists i, j :: 0 <= i < j < |edges|
                               && {edges[i].source, edges[i].target} == {edges[j].source, edges[j].target})
  {
    forall i, j | 0 <= i < j < |edges|
      ensures Parallel(edges[i], edges[j])
              <==> {edges[i].source, edges[i].target} == {edges[j].source, edges[j].target}
    {
      SameEnds(edges[i], edges[j]);
    }
  }

  lemma SameEnds(x: Edge, y: Edge)
    ensures Parallel(x, y) <==> {x.source, x.target} == {y.source, y.target}
  {
    assert x.source in {x.source, x.target} && x.target in {x.source, x.target};
    assert y.source in {y.source, y.target} && y.target in {y.source, y.target};
  }

  lemma DistinctPrefix(s: seq<string>, k: nat)
    requires k <= |s|
    ensures Distinct(s) ==> Distinct(s[..k])
  {
  }

  lemma SimpleAppend(nodes: seq<string>, edges: seq<Edge>, e: Edge)
    requires Simple(nodes, edges)
    ensures Simple(nodes, edges + [e]) <==>
            && e.source in nodes && e.target in nodes && e.source != e.target
            && forall j :: 0 <= j < |edges| ==> edges[j].key != e.key && !Parallel(edges[j], e)
  {
    var all := edges + [e];
    assert all[|edges|] == e && forall j :: 0 <= j < |edges| ==> all[j] == edges[j];
  }

  lemma SimplePrefix(nodes: seq<string>, edges: seq<Edge>, k: nat)
    requires k <= |edges|
    ensures Simple(nodes, edges) ==> Simple(nodes, edges[..k])
  {
  }

  // ----- wallet views -----

  function WalletKey(wallet: string): string { "wallet:" + wallet }

  function GroupKey(id: nat): string { "group:" + Print(id) }

  function WalletNodes(model: Model, members: seq<nat>): seq<string>
    requires forall i :: 0 <= i < |members| ==> members[i] < |model.wallets|
  {
    seq(|members|, i requires 0 <= i < |members| => WalletKey(model.wallets[members[i]].form))
  }

  function PairEdge(row: Row): Edge {
    Edge("pair:" + row.rowId, WalletKey(row.fieldA.form), WalletKey(row.fieldB.form))
  }

  function PairEdges(model: Model, indices: seq<nat>): seq<Edge>
    requires forall i :: 0 <= i < |indices| ==> indices[i] < |model.rows|
  {
    seq(|indices|, i requires 0 <= i < |indices| => PairEdge(model.rows[indices[i]]))
  }

  /** Different wallets print differently. */
  ghost predicate PrintsApart(wallets: seq<Signer>) {
    forall i, j :: 0 <= i < j < |wallets| ==> wallets[i].form != wallets[j].form
  }

  /** The two rows print one unordered pair. */
  predicate PrintsOnePair(x: Row, y: Row) {
    || (x.fieldA.form == y.fieldA.form && x.fieldB.form == y.fieldB.form)
    || (x.fieldA.form == y.fieldB.form && x.fieldB.form == y.fieldA.form)
  }

  /** No two rows print one pair. */
  ghost predicate PairsApart(rows: seq<Row>) {
    forall i, j :: 0 <= i < j < |rows| ==> !PrintsOnePair(rows[i], rows[j])
  }

  /** No two rows share an identity, and no row pairs a wallet with one that prints like it. */
  ghost predicate OwnRows(rows: seq<Row>) {
    && (forall i :: 0 <= i < |rows| ==> rows[i].fieldA.form != rows[i].fieldB.form)
    && (forall i, j :: 0 <= i < j < |rows| ==> rows[i].rowId != rows[j].rowId)
  }

  /** The wallets and rows of a choice. */
  function WalletsAt(wallets: seq<Signer>, members: seq<nat>): seq<Signer>
    requires forall i :: 0 <= i < |members| ==> members[i] < |wallets|
  {
    seq(|members|, i requires 0 <= i < |members| => wallets[members[i]])
  }

  function RowsAt(rows: seq<Row>, indices: seq<nat>): seq<Row>
    requires forall i :: 0 <= i < |indices| ==> indices[i] < |rows|
  {
    seq(|indices|, i requires 0 <= i < |indices| => rows[indices[i]])
  }

  lemma WalletKeyInjective(x: string, y: string)
    ensures WalletKey(x) == WalletKey(y) <==> x == y
  {
    assert WalletKey(x)[7..] == x && WalletKey(y)[7..] == y;
  }

  lemma NodeOf(model: Model, members: seq<nat>, v: nat)
    requires (forall i :: 0 <= i < |members| ==> members[i] < |model.wallets|) && v in members
    ensures WalletKey(model.wallets[v].form) in WalletNodes(model, members)
  {
    var i :| 0 <= i < |members| && members[i] == v;
    assert WalletNodes(model, members)[i] == WalletKey(model.wallets[v].form);
  }

  lemma NodesDistinct(model: Model, members: seq<nat>)
    requires forall i :: 0 <= i < |members| ==> members[i] < |model.wallets|
    ensures Distinct(WalletNodes(model, members)) <==> PrintsApart(WalletsAt(model.wallets, members))
  {
    var nodes, wallets := WalletNodes(model, members), WalletsAt(model.wallets, members);
    forall i, j | 0 <= i < j < |nodes| ensures nodes[i] != nodes[j] <==> wallets[i].form != wallets[j].form {
      WalletKeyInjective(wallets[i].form, wallets[j].form);
    }
  }

  lemma ParallelIsOnePair(x: Row, y: Row)
    ensures Parallel(PairEdge(x), PairEdge(y)) <==> PrintsOnePair(x, y)
  {
    WalletKeyInjective(x.fieldA.form, y.fieldA.form);
    WalletKeyInjective(x.fieldB.form, y.fieldB.form);
    WalletKeyInjective(x.fieldA.form, y.fieldB.form);
    WalletKeyInjective(x.fieldB.form, y.fieldA.form);
  }

  lemma EdgesApart(model: Model, indices: seq<nat>, i: nat, j: nat)
    requires OwnRows(model.rows) && i < j < |indices| && Distinct(indices)
    requires forall i :: 0 <= i < |indices| ==> indices[i] < |model.rows|
    ensures var edges, rows := PairEdges(model, indices), RowsAt(model.rows, indices);
            edges[i].key != edges[j].key && (Parallel(edges[i], edges[j]) <==> PrintsOnePair(rows[i], rows[j]))
  {
    var edges, x, y := PairEdges(model, indices), indices[i], indices[j];
    assert x != y && (x < y || y < x);
    assert edges[i].key[5..] == model.rows[x].rowId && edges[j].key[5..] == model.rows[y].rowId;
    ParallelIsOnePair(model.rows[x], model.rows[y]);
  }

  /** A choice of pairs whose ends are among the chosen wallets draws as a simple graph exactly when the
      chosen wallets print differently and no two chosen rows print one pair. */
  lemma WalletViewSimple(model: Model, number: Reader, members: seq<nat>, indices: seq<nat>)
    requires model.Valid() && Represents(model, number) && OwnRows(model.rows)
    requires (forall i :: 0 <= i < |members| ==> members[i] < |model.wallets|) && Distinct(members)
    requires (forall i :: 0 <= i < |indices| ==> indices[i] < |model.rows|) && Distinct(indices)
    requires forall i :: 0 <= i < |indices| ==>
               model.graph.left[indices[i]] in members && model.graph.right[indices[i]] in members
    ensures Simple(WalletNodes(model, members), PairEdges(model, indices))
            <==> PrintsApart(WalletsAt(model.wallets, members)) && PairsApart(RowsAt(model.rows, indices))
  {
    var nodes, edges, rows := WalletNodes(model, members), PairEdges(model, indices), RowsAt(model.rows, indices);
    NodesDistinct(model, members);
    forall i | 0 <= i < |edges|
      ensures edges[i].source in nodes && edges[i].target in nodes && edges[i].source != edges[i].target
    {
      var e := indices[i];
      NodeOf(model, members, model.graph.left[e]);
      NodeOf(model, members, model.graph.right[e]);
      WalletKeyInjective(model.rows[e].fieldA.form, model.rows[e].fieldB.form);
    }
    forall i, j | 0 <= i < j < |edges|
      ensures edges[i].key != edges[j].key && (Parallel(edges[i], edges[j]) <==> PrintsOnePair(rows[i], rows[j]))
    {
      EdgesApart(model, indices, i, j);
    }
  }
}
