/** From a loaded table to a drawn view: construction, grouping and insertion in sequence. */
module Pipeline {
  import opened PairGraph
  import opened Modularity
  import opened LocalMoving
  import opened Ascent
  import opened Model
  import opened Results
  import opened Ordering
  import opened Decimal
  import Build
  import P = Partition
  import opened Groups
  import opened Links
  import opened GroupIndex
  import opened Neighbourhood
  import opened Display
  import opened PairTables
  import L = Loader

  // ----- construction -----

  /** `Number` agrees with decimal value on the counts the reader admits. */
  ghost predicate ReadsCounts(number: Build.Reader) {
    forall s :: L.Count(s).Some? ==> number(s) == Some(L.Count(s).value as int)
  }

  lemma LoadedAdmissible(rows: seq<Row>, wallets: seq<Signer>, number: Build.Reader, e: nat)
    requires L.ValidTable(L.PAIR_RULES, rows) && ReadsCounts(number) && e < |rows|
    requires forall w :: w in wallets <==> w in L.Participants(rows)
    ensures L.Count(rows[e].sharedMints).Some?
    ensures Build.Admissible(wallets, rows[e], number) <==> L.Count(rows[e].sharedMints).value <= Build.MAX_WEIGHT
  {
    assert L.InPlace(L.PAIR_RULES, rows, e);
    assert L.RowOk(rows[e], e);
    L.ParticipantsExact(rows);
    TextIrreflexive(rows[e].fieldA.form);
  }

  /** Everything the views read. */
  datatype Opened = Opened(model: Model, lookup: map<Signer, nat>, membership: seq<nat>, passes: nat, stable: bool,
                           index: Index)

  /** The promises of an opened model. */
  ghost predicate Open(o: Opened, number: Build.Reader, eps: real, classes: seq<seq<nat>>) {
    && o.model.Valid() && Build.Represents(o.model, number) && Build.Inverts(o.lookup, o.model.wallets)
    && |o.model.wallets| <= Build.MAX_WALLETS && |o.model.rows| <= Build.MAX_ROWS
    && Distinct(o.model.wallets)
    && OwnRows(o.model.rows) && (PrintsApart(o.model.wallets) ==> PairsApart(o.model.rows))
    && P.Progress(Greedy(o.model.graph, eps), o.membership, o.passes, o.stable)
    && o.passes <= P.PASS_LIMIT && (!o.stable ==> o.passes == P.PASS_LIMIT)
    && Labelling(o.model.graph, o.membership) && Partitions(o.model.graph, o.membership, o.index, classes)
    && o.index.internal + o.index.external == |o.model.rows|
  }

  lemma LoadedWallets(rows: seq<Row>, wallets: seq<Signer>)
    requires L.ValidTable(L.PAIR_RULES, rows) && wallets == Sort(L.Participants(rows), PrintsBefore)
    ensures Distinct(wallets) && |wallets| <= Build.MAX_WALLETS
    ensures forall w :: w in wallets <==> w in L.Participants(rows)
  {
    L.ParticipantsExact(rows);
    DistinctPermutes(L.Participants(rows), wallets);
    SameItems(L.Participants(rows), wallets);
  }

  lemma SortedWallets(rows: seq<Row>, wallets: seq<Signer>)
    requires L.ValidTable(L.PAIR_RULES, rows) && wallets == Sort(L.Participants(rows), PrintsBefore)
    ensures Distinct(Sort(wallets, PrintsBefore))
    ensures OwnRows(rows) && (PrintsApart(Sort(wallets, PrintsBefore)) ==> PairsApart(rows))
    ensures TextTable(rows) ==> PrintsApart(Sort(wallets, PrintsBefore))
  {
    LoadedWallets(rows, wallets);
    DistinctPermutes(wallets, Sort(wallets, PrintsBefore));
    SameItems(wallets, Sort(wallets, PrintsBefore));
    LoadedSimple(rows, Sort(wallets, PrintsBefore));
    if TextTable(rows) {
      TextPrintsApart(rows, Sort(wallets, PrintsBefore));
    }
  }

  /** Which loaded tables the builder admits. */
  ghost predicate LightEnough(rows: seq<Row>) {
    forall e :: 0 <= e < |rows| ==>
      L.Count(rows[e].sharedMints).Some? && L.Count(rows[e].sharedMints).value <= Build.MAX_WEIGHT
  }

  /** For every weight above the builder's limit that the reader admits, a table of one row is a committed
      pair table and cannot be built. */
  lemma HeavyTableRefused(weight: nat) returns (rows: seq<Row>)
    requires Build.MAX_WEIGHT < weight <= L.MAX_SAFE
    ensures PairTable(rows) && L.ValidTable(L.PAIR_RULES, rows) && !LightEnough(rows)
  {
    var a, b, n := Field(seq(32, _ => '1'), true), Field(seq(32, _ => '2'), true), Print(weight);
    rows := [Row("0", a, b, n, n, "0", "0")];
    Repeated('1', '2');
    SmallCounts();
    PrintedCount(weight);
    assert rows[..0] == [];
    PairTableAccepted(rows);
  }

  lemma LoadedAdmitted(rows: seq<Row>, wallets: seq<Signer>, number: Build.Reader)
    requires L.ValidTable(L.PAIR_RULES, rows) && ReadsCounts(number)
    requires wallets == Sort(L.Participants(rows), PrintsBefore)
    ensures (forall e :: 0 <= e < |rows| ==> Build.Admissible(wallets, rows[e], number)) <==> LightEnough(rows)
  {
    LoadedWallets(rows, wallets);
    forall e | 0 <= e < |rows|
      ensures L.Count(rows[e].sharedMints).Some?
      ensures Build.Admissible(wallets, rows[e], number) <==> L.Count(rows[e].sharedMints).value <= Build.MAX_WEIGHT
    {
      LoadedAdmissible(rows, wallets, number, e);
    }
  }

  /** Group a built model and index its groups. */
  method GroupModel(model: Model, lookup: map<Signer, nat>, ghost number: Build.Reader, eps: real)
    returns (o: Opened, ghost classes: seq<seq<nat>>)
    requires model.Valid() && Build.Represents(model, number) && Build.Inverts(lookup, model.wallets)
    requires |model.wallets| <= Build.MAX_WALLETS && |model.rows| <= Build.MAX_ROWS
    requires Distinct(model.wallets)
    requires OwnRows(model.rows) && (PrintsApart(model.wallets) ==> PairsApart(model.rows))
    ensures o.model == model && Open(o, number, eps, classes)
  {
    var membership, passes, stable := P.Partition(model, eps, P.PASS_LIMIT);
    var index, thrown;
    index, thrown, classes := BuildIndex(model.graph, membership);
    o := Opened(model, lookup, membership, passes, stable, index);
  }

  /** What the reader returns can be built into a model if and only if no weight exceeds the
      builder's own limit; nothing after that can fail. */
  method Assemble(loaded: L.Loaded, number: Build.Reader, eps: real)
    returns (r: Result<Opened, Build.Error>, ghost classes: seq<seq<nat>>)
    requires L.ValidTable(L.PAIR_RULES, loaded.rows) && |loaded.rows| <= L.MAX_PAIRS && ReadsCounts(number)
    requires loaded.wallets == Sort(L.Participants(loaded.rows), PrintsBefore)
    ensures r.Ok? <==> LightEnough(loaded.rows)
    ensures r.Ok? ==> r.value.model.rows == loaded.rows && Open(r.value, number, eps, classes)
    ensures r.Ok? && TextTable(loaded.rows) ==> PrintsApart(r.value.model.wallets)
  {
    classes := [];
    LoadedWallets(loaded.rows, loaded.wallets);
    LoadedAdmitted(loaded.rows, loaded.wallets, number);
    SortedWallets(loaded.rows, loaded.wallets);
    var built, lookup := Build.Index(loaded.wallets, loaded.rows, number);
    if built.Err? {
      return Err(built.error), classes;
    }
    var o;
    o, classes := GroupModel(built.value, lookup, number, eps);
    r := Ok(o);
  }

  // ----- views -----

  datatype View = Overview | GroupView(id: nat) | WalletView(wallet: Signer, neighbours: bool) | PageView

  /** Wallets and pairs of a wallet-level view. */
  datatype Chosen = Chosen(members: seq<nat>, indices: seq<nat>)

  /** The pairs of the chosen list run between chosen wallets. */
  ghost predicate Closed(model: Model, c: Chosen)
    requires model.Valid()
  {
    && Distinct(c.members) && (forall i :: 0 <= i < |c.members| ==> c.members[i] < |model.wallets|)
    && Distinct(c.indices) && (forall i :: 0 <= i < |c.indices| ==> c.indices[i] < |model.rows|)
    && (forall i :: 0 <= i < |c.indices| ==>
          model.graph.left[c.indices[i]] in c.members && model.graph.right[c.indices[i]] in c.members)
  }

  /** What the view is meant to show: every wallet and pair; one group and its internal pairs; or one
      wallet's closed neighbourhood with its own pairs or all pairs inside it. */
  ghost predicate Shows(o: Opened, view: View, c: Chosen)
    requires o.model.Valid() && |o.index.groupOf| == o.model.graph.order && view != Overview
  {
    var g, of := o.model.graph, o.index.groupOf;
    match view
    case PageView =>
      && (forall v: nat :: v in c.members <==> v < g.order)
      && (forall e: nat :: e in c.indices <==> e < g.Size())
    case GroupView(id) =>
      && (forall v: nat :: v in c.members <==> v < g.order && of[v] == id)
      && (forall e: nat :: e in c.indices <==> e < g.Size() && of[g.left[e]] == of[g.right[e]] == id)
    case WalletView(wallet, neighbours) =>
      exists centre ::
        0 <= centre < g.order && o.model.wallets[centre] == wallet && ShowsAround(g, centre, neighbours, c)
  }

  ghost predicate ShowsAround(g: Graph, centre: nat, neighbours: bool, c: Chosen)
    requires g.Valid()
  {
    && (forall v: nat :: v in c.members <==> Near(g, centre, v))
    && (forall e: nat :: e in c.indices
                         <==> e < g.Size() && if neighbours then Induced(g, centre, e) else g.Touches(e, centre))
  }

  function Range(n: nat): (s: seq<nat>)
    ensures |s| == n && (forall i :: 0 <= i < n ==> s[i] == i) && Distinct(s)
  {
    seq(n, i => i)
  }

  lemma PageClosed(model: Model)
    requires model.Valid()
    ensures Closed(model, Chosen(Range(|model.wallets|), Range(|model.rows|)))
  {
    forall v | 0 <= v < |model.wallets| ensures v in Range(|model.wallets|) {
      assert Range(|model.wallets|)[v] == v;
    }
  }

  lemma GroupClosed(model: Model, m: Labels, index: Index, classes: seq<seq<nat>>, id: nat)
    requires model.Valid() && Labelling(model.graph, m)
    requires Partitions(model.graph, m, index, classes) && id < |index.groups|
    ensures Closed(model, Chosen(index.groups[id].members, index.groups[id].internal))
  {
    var g, of := model.graph, index.groupOf;
    var members, indices := index.groups[id].members, index.groups[id].internal;
    MembersAscend(m, m[members[0]], |m|);
    BetweenExact(g, of, id, id, g.Size());
    forall i | 0 <= i < |indices| ensures g.left[indices[i]] in members && g.right[indices[i]] in members {
      NumbersAgree(m, classes, of, g.left[indices[i]], g.right[indices[i]], id);
      NumbersAgree(m, classes, of, g.right[indices[i]], g.left[indices[i]], id);
    }
  }

  lemma ProjectionClosed(model: Model, p: Projection, neighbours: bool)
    requires model.Valid() && p.centre < |model.wallets| && Projects(model.graph, p.centre, neighbours, p)
    ensures Closed(model, Chosen(p.members, p.indices))
  {
    var g := model.graph;
    forall i | 0 <= i < |p.members| ensures p.members[i] < |model.wallets| {
      assert p.members[i] in p.members;
    }
    forall i | 0 <= i < |p.indices|
      ensures p.indices[i] < |model.rows| && g.left[p.indices[i]] in p.members && g.right[p.indices[i]] in p.members
    {
      assert p.indices[i] in p.indices;
      InducedParts(g, p.centre, p.indices[i]);
    }
  }

  lemma PageShows(o: Opened, c: Chosen)
    requires o.model.Valid() && |o.index.groupOf| == o.model.graph.order
    requires c == Chosen(Range(|o.model.wallets|), Range(|o.model.rows|))
    ensures Shows(o, PageView, c)
  {
    forall v: nat
      ensures (v in c.members <==> v < o.model.graph.order) && (v in c.indices <==> v < o.model.graph.Size())
    {
      if v < |c.members| {
        assert c.members[v] == v;
      }
      if v < |c.indices| {
        assert c.indices[v] == v;
      }
    }
  }

  lemma GroupShows(o: Opened, id: nat, classes: seq<seq<nat>>)
    requires o.model.Valid() && Labelling(o.model.graph, o.membership)
    requires Partitions(o.model.graph, o.membership, o.index, classes)
    requires id < |o.index.groups| && |o.index.groupOf| == o.model.graph.order
    ensures Shows(o, GroupView(id), Chosen(o.index.groups[id].members, o.index.groups[id].internal))
  {
    var g, m, of := o.model.graph, o.membership, o.index.groupOf;
    var c := Chosen(o.index.groups[id].members, o.index.groups[id].internal);
    MembersAscend(m, m[classes[id][0]], |m|);
    forall v: nat ensures v in c.members <==> v < g.order && of[v] == id {
      if v < g.order {
        NumbersAgree(m, classes, of, v, v, id);
      }
    }
    BetweenExact(g, of, id, id, g.Size());
    forall e: nat ensures e in c.indices <==> e < g.Size() && of[g.left[e]] == of[g.right[e]] == id {
      if e < g.Size() {
        PairInOneBucket(g, m, o.index, classes, e);
      }
    }
  }

  lemma PageChosen(o: Opened, c: Chosen)
    requires o.model.Valid() && |o.index.groupOf| == o.model.graph.order
    requires c == Chosen(Range(|o.model.wallets|), Range(|o.model.rows|))
    ensures Closed(o.model, c) && Shows(o, PageView, c)
  {
    PageClosed(o.model);
    PageShows(o, c);
  }

  lemma GroupChosen(o: Opened, id: nat, classes: seq<seq<nat>>)
    requires o.model.Valid() && Labelling(o.model.graph, o.membership)
    requires Partitions(o.model.graph, o.membership, o.index, classes)
    requires id < |o.index.groups| && |o.index.groupOf| == o.model.graph.order
    ensures var c := Chosen(o.index.groups[id].members, o.index.groups[id].internal);
            Closed(o.model, c) && Shows(o, GroupView(id), c)
  {
    GroupClosed(o.model, o.membership, o.index, classes, id);
    GroupShows(o, id, classes);
  }

  lemma WalletChosen(o: Opened, p: Projection, wallet: Signer, neighbours: bool)
    requires o.model.Valid() && |o.index.groupOf| == o.model.graph.order
    requires p.centre < |o.model.wallets| && o.model.wallets[p.centre] == wallet
    requires Projects(o.model.graph, p.centre, neighbours, p)
    ensures Closed(o.model, Chosen(p.members, p.indices))
    ensures Shows(o, WalletView(wallet, neighbours), Chosen(p.members, p.indices))
  {
    ProjectionClosed(o.model, p, neighbours);
    assert ShowsAround(o.model.graph, p.centre, neighbours, Chosen(p.members, p.indices));
  }

  method Choose(o: Opened, view: View, ghost number: Build.Reader, ghost eps: real, ghost classes: seq<seq<nat>>)
    returns (c: Option<Chosen>)
    requires Open(o, number, eps, classes) && view != Overview && (view.GroupView? ==> view.id < |o.index.groups|)
    ensures c.None? <==> view.WalletView? && view.wallet !in o.model.wallets
    ensures c.Some? ==> Closed(o.model, c.value) && Shows(o, view, c.value)
  {
    match view {
      case PageView =>
        c := Some(Chosen(Range(|o.model.wallets|), Range(|o.model.rows|)));
        PageChosen(o, c.value);
      case GroupView(id) =>
        c := Some(Chosen(o.index.groups[id].members, o.index.groups[id].internal));
        GroupChosen(o, id, classes);
      case WalletView(wallet, neighbours) =>
        var p := Focus(o.model, o.lookup, wallet, neighbours);
        if p.None? {
          return None;
        }
        c := Some(Chosen(p.value.members, p.value.indices));
        WalletChosen(o, p.value, wallet, neighbours);
    }
  }

  // ----- the overview -----

  function GroupNodes(groups: seq<Group>): seq<string> {
    seq(|groups|, i requires 0 <= i < |groups| => GroupKey(groups[i].id))
  }

  function LinkEdge(link: Link): Edge {
    Edge("groups:" + link.key, GroupKey(link.a), GroupKey(link.b))
  }

  function LinkEdges(links: seq<Link>): seq<Edge> {
    seq(|links|, i requires 0 <= i < |links| => LinkEdge(links[i]))
  }

  lemma GroupKeyInjective(a: nat, b: nat)
    ensures GroupKey(a) == GroupKey(b) <==> a == b
  {
    assert GroupKey(a)[6..] == Print(a) && GroupKey(b)[6..] == Print(b);
    if Print(a) == Print(b) {
      PrintInjective(a, b);
    }
  }

  lemma LinkKeyInjective(x: Link, y: Link)
    requires x.key == Key(x.a, x.b) && y.key == Key(y.a, y.b) && x.a < x.b && y.a < y.b && (x.a, x.b) != (y.a, y.b)
    ensures LinkEdge(x).key != LinkEdge(y).key && !Parallel(LinkEdge(x), LinkEdge(y))
  {
    assert LinkEdge(x).key[7..] == x.key && LinkEdge(y).key[7..] == y.key;
    if x.key == y.key {
      KeyInjective(x.a, x.b, y.a, y.b);
    }
    GroupKeyInjective(x.a, y.a);
    GroupKeyInjective(x.b, y.b);
    GroupKeyInjective(x.a, y.b);
    GroupKeyInjective(x.b, y.a);
  }

  /** The overview of groups and links draws as a simple graph. */
  lemma OverviewSimple(g: Graph, m: Labels, index: Index, classes: seq<seq<nat>>)
    requires Labelling(g, m) && Partitions(g, m, index, classes)
    ensures Simple(GroupNodes(index.groups), LinkEdges(index.links))
  {
    var nodes, edges, links := GroupNodes(index.groups), LinkEdges(index.links), index.links;
    forall i, j | 0 <= i < j < |nodes| ensures nodes[i] != nodes[j] {
      GroupKeyInjective(i, j);
    }
    forall i | 0 <= i < |edges|
      ensures edges[i].source in nodes && edges[i].target in nodes && edges[i].source != edges[i].target
    {
      GroupKeyInjective(links[i].a, links[i].b);
      assert nodes[links[i].a] == edges[i].source && nodes[links[i].b] == edges[i].target;
    }
    forall i, j | 0 <= i < j < |edges| ensures edges[i].key != edges[j].key && !Parallel(edges[i], edges[j]) {
      assert LinkBefore(links[i], links[j]);
      LinkKeyInjective(links[i], links[j]);
    }
  }

  function LinkWeights(links: seq<Link>): seq<nat> {
    seq(|links|, i requires 0 <= i < |links| => |links[i].indices|)
  }

  function PairWeights(g: Graph, indices: seq<nat>): seq<nat>
    requires forall i :: 0 <= i < |indices| ==> indices[i] < |g.weight|
  {
    seq(|indices|, i requires 0 <= i < |indices| => g.weight[indices[i]])
  }

  /** What is drawn, with the weight of each edge. */
  datatype Drawing = Drawing(nodes: seq<string>, edges: seq<Edge>, weights: seq<nat>)

  function OverviewDrawing(index: Index): Drawing {
    Drawing(GroupNodes(index.groups), LinkEdges(index.links), LinkWeights(index.links))
  }

  function ChosenDrawing(model: Model, c: Chosen): Drawing
    requires model.graph.Size() == |model.rows|
    requires forall i :: 0 <= i < |c.members| ==> c.members[i] < |model.wallets|
    requires forall i :: 0 <= i < |c.indices| ==> c.indices[i] < |model.rows|
  {
    Drawing(WalletNodes(model, c.members), PairEdges(model, c.indices), PairWeights(model.graph, c.indices))
  }

  ghost predicate DrawnAs(o: Opened, view: View, d: Drawing)
    requires o.model.Valid() && |o.index.groupOf| == o.model.graph.order
  {
    if view == Overview then d == OverviewDrawing(o.index)
    else exists c :: Closed(o.model, c) && Shows(o, view, c) && d == ChosenDrawing(o.model, c)
  }

  /** Chosen wallets print differently, and no two chosen rows print one pair. */
  ghost predicate Apart(model: Model, c: Chosen)
    requires forall i :: 0 <= i < |c.members| ==> c.members[i] < |model.wallets|
    requires forall i :: 0 <= i < |c.indices| ==> c.indices[i] < |model.rows|
  {
    PrintsApart(WalletsAt(model.wallets, c.members)) && PairsApart(RowsAt(model.rows, c.indices))
  }

  /** Insertion never throws in the overview, and in any other view exactly when what the view shows
      prints alike. */
  ghost predicate ThrownAs(o: Opened, view: View, number: Build.Reader, d: Drawing, thrown: bool)
    requires o.model.Valid() && |o.index.groupOf| == o.model.graph.order
  {
    if view == Overview then CarriesGroups(o.model.graph, o.index, d) && !thrown
    else exists c :: Closed(o.model, c) && Shows(o, view, c) && CarriesRows(o.model, number, c, d)
                     && (thrown <==> !Apart(o.model, c))
  }

  /** Where all wallets print differently, so do those of any choice. */
  lemma ChoiceApart(model: Model, c: Chosen)
    requires model.Valid() && Closed(model, c) && PrintsApart(model.wallets) && PairsApart(model.rows)
    ensures Apart(model, c)
  {
    var wallets, rows := WalletsAt(model.wallets, c.members), RowsAt(model.rows, c.indices);
    forall i, j | 0 <= i < j < |wallets| ensures wallets[i].form != wallets[j].form {
      assert c.members[i] != c.members[j];
    }
    forall i, j | 0 <= i < j < |rows| ensures !PrintsOnePair(rows[i], rows[j]) {
      var x, y := c.indices[i], c.indices[j];
      assert x < y || y < x;
    }
  }

  /** Every edge of a pair view is keyed by its row, joins the row's own wallets and has the number of the
      row's own count. */
  ghost predicate CarriesRows(model: Model, number: Build.Reader, c: Chosen, d: Drawing)
    requires forall i :: 0 <= i < |c.members| ==> c.members[i] < |model.wallets|
    requires forall i :: 0 <= i < |c.indices| ==> c.indices[i] < |model.rows|
  {
    && |d.nodes| == |c.members| && |d.edges| == |d.weights| == |c.indices|
    && (forall i :: 0 <= i < |d.nodes| ==> d.nodes[i] == "wallet:" + model.wallets[c.members[i]].form)
    && (forall i :: 0 <= i < |d.edges| ==>
          var row := model.rows[c.indices[i]];
          && d.edges[i] == Edge("pair:" + row.rowId, "wallet:" + row.fieldA.form, "wallet:" + row.fieldB.form)
          && number(row.sharedMints) == Some(d.weights[i] as int))
  }

  lemma ChosenCarriesRows(model: Model, number: Build.Reader, c: Chosen)
    requires model.Valid() && Build.Represents(model, number) && Closed(model, c)
    ensures CarriesRows(model, number, c, ChosenDrawing(model, c))
  {
  }

  /** Edge `j` of the overview joins groups `a` and `b`, and weighs as many pairs as have one end in each. */
  ghost predicate Joins(g: Graph, index: Index, d: Drawing, j: nat, a: nat, b: nat)
    requires g.Valid() && |index.groupOf| == g.order
  {
    && j < |d.edges| == |d.weights| && a < b < |index.groups|
    && d.edges[j] == Edge("groups:" + (Print(a) + ":" + Print(b)), "group:" + Print(a), "group:" + Print(b))
    && d.weights[j] == |set e: nat | e < g.Size() && {index.groupOf[g.left[e]], index.groupOf[g.right[e]]} == {a, b}|
  }

  ghost predicate JoinsSome(g: Graph, index: Index, d: Drawing, j: nat)
    requires g.Valid() && |index.groupOf| == g.order
  {
    exists a: nat, b: nat :: Joins(g, index, d, j, a, b)
  }

  ghost predicate Joined(g: Graph, index: Index, d: Drawing, x: nat, y: nat)
    requires g.Valid() && |index.groupOf| == g.order
  {
    exists j: nat, a: nat, b: nat :: Joins(g, index, d, j, a, b) && {x, y} == {a, b}
  }

  /** The overview has a node for every group and an edge for every two groups that some pair joins. */
  ghost predicate CarriesGroups(g: Graph, index: Index, d: Drawing)
    requires g.Valid() && |index.groupOf| == g.order
  {
    && |d.nodes| == |index.groups| && (forall i :: 0 <= i < |d.nodes| ==> d.nodes[i] == "group:" + Print(i))
    && (forall j :: 0 <= j < |d.edges| ==> JoinsSome(g, index, d, j))
    && (forall e {:trigger g.left[e]} ::
          0 <= e < g.Size() && index.groupOf[g.left[e]] != index.groupOf[g.right[e]] ==>
            Joined(g, index, d, index.groupOf[g.left[e]], index.groupOf[g.right[e]]))
  }

  lemma OverviewEdge(g: Graph, m: Labels, index: Index, classes: seq<seq<nat>>, d: Drawing, j: nat)
    requires Labelling(g, m) && Partitions(g, m, index, classes) && j < |index.links| && d == OverviewDrawing(index)
    ensures Joins(g, index, d, j, index.links[j].a, index.links[j].b)
  {
    BetweenIsSize(g, index.groupOf, index.links[j].a, index.links[j].b);
  }

  lemma OverviewPair(g: Graph, m: Labels, index: Index, classes: seq<seq<nat>>, d: Drawing, e: nat)
    requires Labelling(g, m) && Partitions(g, m, index, classes) && d == OverviewDrawing(index) && e < g.Size()
    requires index.groupOf[g.left[e]] != index.groupOf[g.right[e]]
    ensures Joined(g, index, d, index.groupOf[g.left[e]], index.groupOf[g.right[e]])
  {
    var x, y := index.groupOf[g.left[e]], index.groupOf[g.right[e]];
    PairInOneBucket(g, m, index, classes, e);
    var j :| 0 <= j < |index.links| && {x, y} == {index.links[j].a, index.links[j].b};
    OverviewEdge(g, m, index, classes, d, j);
  }

  lemma OverviewCarriesGroups(g: Graph, m: Labels, index: Index, classes: seq<seq<nat>>)
    requires Labelling(g, m) && Partitions(g, m, index, classes)
    ensures CarriesGroups(g, index, OverviewDrawing(index))
  {
    var d := OverviewDrawing(index);
    forall j | 0 <= j < |d.edges| ensures JoinsSome(g, index, d, j) {
      OverviewEdge(g, m, index, classes, d, j);
    }
    forall e {:trigger g.left[e]} | 0 <= e < g.Size() && index.groupOf[g.left[e]] != index.groupOf[g.right[e]]
      ensures Joined(g, index, d, index.groupOf[g.left[e]], index.groupOf[g.right[e]])
    {
      OverviewPair(g, m, index, classes, d, e);
    }
  }

  /** Drawing every wallet needs all of them to print differently. */
  lemma PageNeedsApart(model: Model, members: seq<nat>)
    requires forall i :: 0 <= i < |members| ==> members[i] < |model.wallets|
    requires forall v: nat :: v in members <==> v < |model.wallets|
    requires PrintsApart(WalletsAt(model.wallets, members))
    ensures PrintsApart(model.wallets)
  {
    var shown := WalletsAt(model.wallets, members);
    forall v, w | 0 <= v < w < |model.wallets| ensures model.wallets[v].form != model.wallets[w].form {
      assert v in members && w in members;
      var i :| 0 <= i < |members| && members[i] == v;
      var j :| 0 <= j < |members| && members[j] == w;
      assert i < j || j < i;
      assert shown[i].form != shown[j].form;
    }
  }

  lemma ChoiceDraws(o: Opened, view: View, c: Chosen, number: Build.Reader)
    requires o.model.Valid() && Build.Represents(o.model, number) && |o.index.groupOf| == o.model.graph.order
    requires OwnRows(o.model.rows) && (PrintsApart(o.model.wallets) ==> PairsApart(o.model.rows))
    requires view != Overview && Closed(o.model, c) && Shows(o, view, c)
    ensures var d := ChosenDrawing(o.model, c); Simple(d.nodes, d.edges) <==> Apart(o.model, c)
    ensures PrintsApart(o.model.wallets) ==> Apart(o.model, c)
    ensures view == PageView && Apart(o.model, c) ==> PrintsApart(o.model.wallets)
  {
    WalletViewSimple(o.model, number, c.members, c.indices);
    if PrintsApart(o.model.wallets) {
      ChoiceApart(o.model, c);
    }
    if view == PageView && Apart(o.model, c) {
      PageNeedsApart(o.model, c.members);
    }
  }

  /** Draw any view of an opened model. Only an unknown wallet fails. Insertion throws exactly when two
      wallets that the view shows print alike, or two of its rows print one pair: never in the overview or
      where all wallets print differently, and in the page view exactly when they do not. */
  method Draw(o: Opened, view: View, ghost number: Build.Reader, ghost eps: real, ghost classes: seq<seq<nat>>)
    returns (failed: bool, thrown: bool, d: Drawing)
    requires Open(o, number, eps, classes) && (view.GroupView? ==> view.id < |o.index.groups|)
    ensures failed <==> view.WalletView? && view.wallet !in o.model.wallets
    ensures !failed ==> DrawnAs(o, view, d) && ThrownAs(o, view, number, d, thrown)
    ensures thrown ==> view != Overview && !PrintsApart(o.model.wallets)
    ensures view == PageView ==> (thrown <==> !PrintsApart(o.model.wallets))
    ensures !failed ==> (thrown <==> !Simple(d.nodes, d.edges))
  {
    failed, thrown, d := false, false, Drawing([], [], []);
    if view == Overview {
      OverviewSimple(o.model.graph, o.membership, o.index, classes);
      OverviewCarriesGroups(o.model.graph, o.membership, o.index, classes);
      d := OverviewDrawing(o.index);
    } else {
      var c := Choose(o, view, number, eps, classes);
      if c.None? {
        failed := true;
        return;
      }
      ChoiceDraws(o, view, c.value, number);
      ChosenCarriesRows(o.model, number, c.value);
      d := ChosenDrawing(o.model, c.value);
    }
    thrown := InsertAll(d.nodes, d.edges);
  }
}
