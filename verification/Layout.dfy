/** Matrices for the layout engine: ten numbers a node, three an edge, and the way back to coordinates. */
module Layout {
  import opened Results
  import Display

  const MAX_NODES: nat := 5000
  const MAX_EDGES: nat := 200000
  const REACH: real := 100000000.0

  datatype Node = Node(key: string, x: real, y: real, size: real, fixed: bool)
  datatype Edge = Edge(source: string, target: string, weight: real)

  /** What graph insertion guarantees: unique keys, known ends, no loops. */
  ghost predicate Drawn(nodes: seq<Node>, edges: seq<Edge>) {
    && (forall i, j :: 0 <= i < j < |nodes| ==> nodes[i].key != nodes[j].key)
    && forall e :: 0 <= e < |edges| ==>
         Known(nodes, edges[e].source) && Known(nodes, edges[e].target) && edges[e].source != edges[e].target
  }

  ghost predicate Known(nodes: seq<Node>, key: string) {
    exists i :: 0 <= i < |nodes| && nodes[i].key == key
  }

  /** Every graph that insertion accepts can be laid out. */
  lemma SimpleIsDrawn(nodes: seq<Node>, edges: seq<Edge>, keys: seq<string>, inserted: seq<Display.Edge>)
    requires Display.Simple(keys, inserted) && |keys| == |nodes| && |inserted| == |edges|
    requires forall i :: 0 <= i < |nodes| ==> keys[i] == nodes[i].key
    requires forall e :: 0 <= e < |edges| ==>
               inserted[e].source == edges[e].source && inserted[e].target == edges[e].target
    ensures Drawn(nodes, edges)
  {
  }

  /** Sum of the first `k` weights at a node. */
  function Degree(edges: seq<Edge>, key: string, k: nat): real
    requires k <= |edges|
  {
    if k == 0 then 0.0
    else Degree(edges, key, k - 1)
         + if edges[k - 1].source == key || edges[k - 1].target == key then edges[k - 1].weight else 0.0
  }

  /** With unit weights, a node's degree is the number of edges that end at it. */
  lemma {:induction false} DegreeCounts(edges: seq<Edge>, key: string, k: nat)
    requires k <= |edges| && forall e :: 0 <= e < |edges| ==> edges[e].weight == 1.0
    ensures Degree(edges, key, k)
            == |set e: nat | e < k && (edges[e].source == key || edges[e].target == key)| as real
  {
    if k > 0 {
      DegreeCounts(edges, key, k - 1);
      var before := set e: nat | e < k - 1 && (edges[e].source == key || edges[e].target == key);
      var now := set e: nat | e < k && (edges[e].source == key || edges[e].target == key);
      var ends := edges[k - 1].source == key || edges[k - 1].target == key;
      assert now == if ends then before + {k - 1} else before;
    }
  }

  function Weight(edges: seq<Edge>, k: nat): real
    requires k <= |edges|
  {
    if k == 0 then 0.0 else Weight(edges, k - 1) + edges[k - 1].weight
  }

  // ----- rows of a flat matrix -----

  function NodeRow(n: Node, mass: real): seq<real> {
    [n.x, n.y, 0.0, 0.0, 0.0, 0.0, mass, 1.0, n.size, if n.fixed then 1.0 else 0.0]
  }

  predicate RowIs(s: seq<real>, i: nat, row: seq<real>) {
    10 * i + 10 <= |s| && s[10 * i..10 * i + 10] == row
  }

  /** Adding to one node's mass. */
  lemma MassAdded(s: seq<real>, a: nat, n: Node, mass: real, w: real, i: nat, row: seq<real>)
    requires RowIs(s, a, NodeRow(n, mass)) && RowIs(s, i, row)
    ensures s[10 * a + 6] == mass
    ensures RowIs(s[10 * a + 6 := mass + w], i, if i == a then NodeRow(n, mass + w) else row)
  {
  }

  /** The node matrix once the first `k` edges are counted. */
  ghost predicate NodesCounted(s: seq<real>, nodes: seq<Node>, edges: seq<Edge>, k: nat)
    requires k <= |edges|
  {
    && |s| == 10 * |nodes|
    && forall i {:trigger Counted(s, nodes[i], i, edges, k)} :: 0 <= i < |nodes| ==> Counted(s, nodes[i], i, edges, k)
  }

  ghost predicate Counted(s: seq<real>, n: Node, i: nat, edges: seq<Edge>, k: nat)
    requires k <= |edges|
  {
    RowIs(s, i, NodeRow(n, 1.0 + Degree(edges, n.key, k)))
  }

  ghost predicate EdgeAt(s: seq<real>, nodes: seq<Node>, e: nat, edge: Edge) {
    && 3 * e + 3 <= |s| && s[3 * e + 2] == edge.weight
    && (exists a :: 0 <= a < |nodes| && nodes[a].key == edge.source && s[3 * e] == (10 * a) as real)
    && (exists b :: 0 <= b < |nodes| && nodes[b].key == edge.target && s[3 * e + 1] == (10 * b) as real)
  }

  ghost predicate EdgesListed(s: seq<real>, nodes: seq<Node>, edges: seq<Edge>, k: nat)
    requires k <= |edges|
  {
    && |s| == 3 * |edges|
    && forall e {:trigger EdgeAt(s, nodes, e, edges[e])} :: 0 <= e < k ==> EdgeAt(s, nodes, e, edges[e])
  }

  /** Adding to two nodes' masses. */
  lemma TwoAdded(s: seq<real>, a: nat, na: Node, da: real, b: nat, nb: Node, db: real, w: real, i: nat, n: Node,
                 d: real)
    requires a != b && RowIs(s, a, NodeRow(na, da)) && RowIs(s, b, NodeRow(nb, db)) && RowIs(s, i, NodeRow(n, d))
    requires (i == a ==> n == na && d == da) && (i == b ==> n == nb && d == db)
    ensures s[10 * a + 6] == da && s[10 * b + 6] == db
    ensures RowIs(s[10 * a + 6 := da + w][10 * b + 6 := db + w], i, NodeRow(n, if i == a || i == b then d + w else d))
  {
    MassAdded(s, a, na, da, w, b, NodeRow(nb, db));
    MassAdded(s, b, nb, db, w, i, NodeRow(n, d));
    MassAdded(s, a, na, da, w, i, NodeRow(n, d));
    var t := s[10 * a + 6 := da + w];
    MassAdded(t, b, nb, db, w, i, NodeRow(n, if i == a then d + w else d));
  }

  lemma EdgeCountedAt(s: seq<real>, t: seq<real>, edges: seq<Edge>, k: nat, a: nat, na: Node, b: nat, nb: Node, i: nat,
                      n: Node)
    requires k < |edges| && na.key == edges[k].source && nb.key == edges[k].target && a != b
    requires Counted(s, na, a, edges, k) && Counted(s, nb, b, edges, k) && Counted(s, n, i, edges, k)
    requires (i == a <==> n.key == na.key) && (i == b <==> n.key == nb.key)
    requires (i == a ==> n == na) && (i == b ==> n == nb)
    requires t == s[10 * a + 6 := s[10 * a + 6] + edges[k].weight][10 * b + 6 := s[10 * b + 6] + edges[k].weight]
    ensures Counted(t, n, i, edges, k + 1)
  {
    TwoAdded(s, a, na, 1.0 + Degree(edges, na.key, k), b, nb, 1.0 + Degree(edges, nb.key, k), edges[k].weight,
             i, n, 1.0 + Degree(edges, n.key, k));
  }

  lemma EdgeCounted(s: seq<real>, t: seq<real>, nodes: seq<Node>, edges: seq<Edge>, k: nat, a: nat, b: nat)
    requires Drawn(nodes, edges) && k < |edges| && NodesCounted(s, nodes, edges, k)
    requires a < |nodes| && b < |nodes| && nodes[a].key == edges[k].source && nodes[b].key == edges[k].target
    requires t == s[10 * a + 6 := s[10 * a + 6] + edges[k].weight][10 * b + 6 := s[10 * b + 6] + edges[k].weight]
    ensures NodesCounted(t, nodes, edges, k + 1)
  {
    forall i | 0 <= i < |nodes| ensures Counted(t, nodes[i], i, edges, k + 1) {
      assert Counted(s, nodes[a], a, edges, k)
             && Counted(s, nodes[b], b, edges, k) && Counted(s, nodes[i], i, edges, k);
      EdgeCountedAt(s, t, edges, k, a, nodes[a], b, nodes[b], i, nodes[i]);
    }
  }

  lemma DegreeGrows(nodes: seq<Node>, edges: seq<Edge>, k: nat, a: nat, b: nat, i: nat)
    requires Drawn(nodes, edges) && k < |edges| && i < |nodes|
    requires a < |nodes| && b < |nodes| && nodes[a].key == edges[k].source && nodes[b].key == edges[k].target
    ensures a != b
    ensures Degree(edges, nodes[i].key, k + 1)
            == Degree(edges, nodes[i].key, k) + if i == a || i == b then edges[k].weight else 0.0
  {
  }

  lemma EdgeListed(s: seq<real>, nodes: seq<Node>, edges: seq<Edge>, k: nat, a: nat, b: nat)
    requires k < |edges| && EdgesListed(s, nodes, edges, k)
    requires a < |nodes| && b < |nodes| && nodes[a].key == edges[k].source && nodes[b].key == edges[k].target
    ensures EdgesListed(s[3 * k := (10 * a) as real][3 * k + 1 := (10 * b) as real][3 * k + 2 := edges[k].weight],
                        nodes, edges, k + 1)
  {
    var t := s[3 * k := (10 * a) as real][3 * k + 1 := (10 * b) as real][3 * k + 2 := edges[k].weight];
    forall e | 0 <= e < k + 1 ensures EdgeAt(t, nodes, e, edges[e]) {
      if e < k {
        assert EdgeAt(s, nodes, e, edges[e]);
        assert t[3 * e] == s[3 * e] && t[3 * e + 1] == s[3 * e + 1] && t[3 * e + 2] == s[3 * e + 2];
      }
    }
  }

  /** Fill one node's row of a zeroed matrix. */
  method PlaceNode(matrix: array<real>, i: nat, n: Node)
    requires 10 * i + 10 <= matrix.Length
    requires forall c :: 10 * i <= c < 10 * i + 10 ==> matrix[c] == 0.0
    modifies matrix
    ensures RowIs(matrix[..], i, NodeRow(n, 1.0))
    ensures forall c :: 0 <= c < matrix.Length && !(10 * i <= c < 10 * i + 10) ==> matrix[c] == old(matrix[c])
  {
    matrix[10 * i], matrix[10 * i + 1], matrix[10 * i + 6], matrix[10 * i + 7] := n.x, n.y, 1.0, 1.0;
    matrix[10 * i + 8], matrix[10 * i + 9] := n.size, if n.fixed then 1.0 else 0.0;
  }

  ghost predicate Offsets(lookup: map<string, nat>, nodes: seq<Node>, n: nat)
    requires n <= |nodes|
  {
    forall i :: 0 <= i < n ==> nodes[i].key in lookup && lookup[nodes[i].key] == i
  }

  method PlaceNodes(nodes: seq<Node>, edges: seq<Edge>) returns (matrix: array<real>, lookup: map<string, nat>)
    requires Drawn(nodes, edges)
    ensures fresh(matrix) && NodesCounted(matrix[..], nodes, edges, 0) && Offsets(lookup, nodes, |nodes|)
  {
    matrix, lookup := new real[10 * |nodes|](_ => 0.0), map[];
    for i := 0 to |nodes|
      invariant forall j :: 0 <= j < i ==> RowIs(matrix[..], j, NodeRow(nodes[j], 1.0))
      invariant forall c :: 10 * i <= c < matrix.Length ==> matrix[c] == 0.0
      invariant Offsets(lookup, nodes, i)
    {
      ghost var before := matrix[..];
      PlaceNode(matrix, i, nodes[i]);
      forall j | 0 <= j < i ensures RowIs(matrix[..], j, NodeRow(nodes[j], 1.0)) {
        assert RowIs(before, j, NodeRow(nodes[j], 1.0));
        assert matrix[..][10 * j..10 * j + 10] == before[10 * j..10 * j + 10];
      }
      lookup := lookup[nodes[i].key := i];
    }
  }

  /** Add a weight to two different nodes' masses. */
  method AddMasses(matrix: array<real>, a: nat, b: nat, w: real)
    requires 10 * a + 10 <= matrix.Length && 10 * b + 10 <= matrix.Length && a != b
    modifies matrix
    ensures var s := old(matrix[..]);
            matrix[..] == s[10 * a + 6 := s[10 * a + 6] + w][10 * b + 6 := s[10 * b + 6] + w]
  {
    matrix[10 * a + 6] := matrix[10 * a + 6] + w;
    matrix[10 * b + 6] := matrix[10 * b + 6] + w;
  }

  lemma RoomFor(s: seq<real>, nodes: seq<Node>, edges: seq<Edge>, k: nat, a: nat, b: nat)
    requires Drawn(nodes, edges) && k < |edges| && NodesCounted(s, nodes, edges, k)
    requires a < |nodes| && b < |nodes| && nodes[a].key == edges[k].source && nodes[b].key == edges[k].target
    ensures 10 * a + 10 <= |s| && 10 * b + 10 <= |s| && a != b
  {
  }

  method CountEdge(matrix: array<real>, nodes: seq<Node>, edges: seq<Edge>, k: nat, a: nat, b: nat)
    requires Drawn(nodes, edges) && k < |edges| && NodesCounted(matrix[..], nodes, edges, k)
    requires a < |nodes| && b < |nodes| && nodes[a].key == edges[k].source && nodes[b].key == edges[k].target
    modifies matrix
    ensures NodesCounted(matrix[..], nodes, edges, k + 1)
  {
    ghost var s := matrix[..];
    RoomFor(s, nodes, edges, k, a, b);
    AddMasses(matrix, a, b, edges[k].weight);
    EdgeCounted(s, matrix[..], nodes, edges, k, a, b);
  }

  method ListEdge(links: array<real>, nodes: seq<Node>, edges: seq<Edge>, k: nat, a: nat, b: nat)
    requires k < |edges| && EdgesListed(links[..], nodes, edges, k)
    requires a < |nodes| && b < |nodes| && nodes[a].key == edges[k].source && nodes[b].key == edges[k].target
    modifies links
    ensures EdgesListed(links[..], nodes, edges, k + 1)
  {
    ghost var l := links[..];
    links[3 * k], links[3 * k + 1], links[3 * k + 2] := (10 * a) as real, (10 * b) as real, edges[k].weight;
    EdgeListed(l, nodes, edges, k, a, b);
    assert links[..] == l[3 * k := (10 * a) as real][3 * k + 1 := (10 * b) as real][3 * k + 2 := edges[k].weight];
  }

  /** The two matrices; nothing where the graph exceeds its budget. */
  method LayoutInput(nodes: seq<Node>, edges: seq<Edge>) returns (r: Option<(array<real>, array<real>)>)
    requires Drawn(nodes, edges)
    ensures r.None? <==> |nodes| > MAX_NODES || |edges| > MAX_EDGES
    ensures r.Some? ==> fresh(r.value.0) && fresh(r.value.1)
    ensures r.Some? ==> NodesCounted(r.value.0[..], nodes, edges, |edges|)
    ensures r.Some? ==> EdgesListed(r.value.1[..], nodes, edges, |edges|)
  {
    if |nodes| > MAX_NODES || |edges| > MAX_EDGES {
      return None;
    }
    var matrix, lookup := PlaceNodes(nodes, edges);
    var links := new real[3 * |edges|];
    for k := 0 to |edges|
      invariant NodesCounted(matrix[..], nodes, edges, k) && EdgesListed(links[..], nodes, edges, k)
    {
      assert Known(nodes, edges[k].source) && Known(nodes, edges[k].target);
      var a, b := lookup[edges[k].source], lookup[edges[k].target];
      CountEdge(matrix, nodes, edges, k, a, b);
      ListEdge(links, nodes, edges, k, a, b);
    }
    r := Some((matrix, links));
  }

  /** The ten columns of a node: position, four zeros for the engine, its mass, one, its size and its mark. */
  lemma NodeColumns(s: seq<real>, nodes: seq<Node>, edges: seq<Edge>, k: nat, i: nat)
    requires k <= |edges| && NodesCounted(s, nodes, edges, k) && i < |nodes|
    ensures 10 * i + 10 <= |s|
    ensures s[10 * i] == nodes[i].x && s[10 * i + 1] == nodes[i].y
    ensures s[10 * i + 2] == s[10 * i + 3] == s[10 * i + 4] == s[10 * i + 5] == 0.0
    ensures s[10 * i + 6] == 1.0 + Degree(edges, nodes[i].key, k) && s[10 * i + 7] == 1.0
    ensures s[10 * i + 8] == nodes[i].size && s[10 * i + 9] == if nodes[i].fixed then 1.0 else 0.0
  {
    assert Counted(s, nodes[i], i, edges, k);
    var row := s[10 * i..10 * i + 10];
    assert row[0] == s[10 * i] && row[1] == s[10 * i + 1] && row[2] == s[10 * i + 2] && row[3] == s[10 * i + 3];
    assert row[4] == s[10 * i + 4] && row[5] == s[10 * i + 5] && row[6] == s[10 * i + 6] && row[7] == s[10 * i + 7];
    assert row[8] == s[10 * i + 8] && row[9] == s[10 * i + 9];
  }

  // ----- total mass -----

  /** Sum of the mass column. */
  function TotalMass(s: seq<real>, n: nat): real
    requires 10 * n <= |s|
  {
    if n == 0 then 0.0 else TotalMass(s, n - 1) + s[10 * (n - 1) + 6]
  }

  function Degrees(nodes: seq<Node>, edges: seq<Edge>, n: nat, k: nat): real
    requires n <= |nodes| && k <= |edges|
  {
    if n == 0 then 0.0 else Degrees(nodes, edges, n - 1, k) + Degree(edges, nodes[n - 1].key, k)
  }

  lemma {:induction false} MassesAreDegrees(s: seq<real>, nodes: seq<Node>, edges: seq<Edge>, n: nat)
    requires NodesCounted(s, nodes, edges, |edges|) && n <= |nodes|
    ensures TotalMass(s, n) == n as real + Degrees(nodes, edges, n, |edges|)
  {
    if n > 0 {
      MassesAreDegrees(s, nodes, edges, n - 1);
      assert Counted(s, nodes[n - 1], n - 1, edges, |edges|);
      assert s[10 * (n - 1) + 6] == s[10 * (n - 1)..10 * (n - 1) + 10][6];
    }
  }

  lemma {:induction false} NoDegrees(nodes: seq<Node>, edges: seq<Edge>, n: nat)
    requires n <= |nodes|
    ensures Degrees(nodes, edges, n, 0) == 0.0
  {
    if n > 0 {
      NoDegrees(nodes, edges, n - 1);
    }
  }

  /** The `k`-th edge counts at each of its two ends. */
  lemma {:induction false} DegreesGrow(nodes: seq<Node>, edges: seq<Edge>, n: nat, k: nat, a: nat, b: nat)
    requires Drawn(nodes, edges) && k < |edges| && n <= |nodes|
    requires a < |nodes| && b < |nodes| && nodes[a].key == edges[k].source && nodes[b].key == edges[k].target
    ensures Degrees(nodes, edges, n, k + 1) == Degrees(nodes, edges, n, k)
              + (if a < n then edges[k].weight else 0.0) + (if b < n then edges[k].weight else 0.0)
  {
    if n > 0 {
      DegreesGrow(nodes, edges, n - 1, k, a, b);
      DegreeGrows(nodes, edges, k, a, b, n - 1);
    }
  }

  lemma {:induction false} DegreesCountTwice(nodes: seq<Node>, edges: seq<Edge>, k: nat)
    requires Drawn(nodes, edges) && k <= |edges|
    ensures Degrees(nodes, edges, |nodes|, k) == 2.0 * Weight(edges, k)
  {
    if k == 0 {
      NoDegrees(nodes, edges, |nodes|);
    } else {
      DegreesCountTwice(nodes, edges, k - 1);
      assert Known(nodes, edges[k - 1].source) && Known(nodes, edges[k - 1].target);
      var a :| 0 <= a < |nodes| && nodes[a].key == edges[k - 1].source;
      var b :| 0 <= b < |nodes| && nodes[b].key == edges[k - 1].target;
      DegreesGrow(nodes, edges, |nodes|, k - 1, a, b);
    }
  }

  /** The mass column adds up to one per node and twice every weight. */
  lemma TotalMassIs(s: seq<real>, nodes: seq<Node>, edges: seq<Edge>)
    requires Drawn(nodes, edges) && NodesCounted(s, nodes, edges, |edges|)
    ensures TotalMass(s, |nodes|) == |nodes| as real + 2.0 * Weight(edges, |edges|)
  {
    MassesAreDegrees(s, nodes, edges, |nodes|);
    DegreesCountTwice(nodes, edges, |edges|);
  }

  // ----- validation -----

  predicate Tenfold(x: real) { x == x.Floor as real && x.Floor % 10 == 0 }

  predicate EdgeValid(edges: seq<real>, e: nat, length: nat)
    requires 3 * e + 3 <= |edges|
  {
    var a, b := edges[3 * e], edges[3 * e + 1];
    && 0.0 <= a < length as real && 0.0 <= b < length as real && Tenfold(a) && Tenfold(b)
    && a != b && edges[3 * e + 2] >= 1.0
  }

  ghost predicate ValidInput(nodes: seq<real>, edges: seq<real>) {
    && |nodes| % 10 == 0 && |edges| % 3 == 0 && |nodes| <= 50000 && |edges| <= 600000
    && forall e :: 0 <= e < |edges| / 3 ==> EdgeValid(edges, e, |nodes|)
  }

  method ValidateInput(nodes: array<real>, edges: array<real>) returns (thrown: bool)
    ensures thrown <==> !ValidInput(nodes[..], edges[..])
  {
    if nodes.Length % 10 != 0 || edges.Length % 3 != 0 || nodes.Length > 50000 || edges.Length > 600000 {
      return true;
    }
    for e := 0 to edges.Length / 3
      invariant forall f :: 0 <= f < e ==> EdgeValid(edges[..], f, nodes.Length)
    {
      var a, b, weight, n := edges[3 * e], edges[3 * e + 1], edges[3 * e + 2], nodes.Length as real;
      if a < 0.0 || b < 0.0 || !Tenfold(a) || !Tenfold(b) || a >= n || b >= n || a == b || weight < 1.0 {
        assert !EdgeValid(edges[..], e, nodes.Length);
        return true;
      }
    }
    thrown := false;
  }

  lemma TenfoldIs(x: real, n: nat)
    requires 0.0 <= x
    ensures Tenfold(x) && x < (10 * n) as real <==> exists i: nat :: i < n && x == (10 * i) as real
  {
    if Tenfold(x) && x < (10 * n) as real {
      var i := x.Floor / 10;
      assert x.Floor == 10 * i && x == (10 * i) as real;
    }
    if exists i: nat :: i < n && x == (10 * i) as real {
      var i: nat :| i < n && x == (10 * i) as real;
      OffsetTenfold(i);
    }
  }

  /** Edge `e` joins the rows of two different nodes with a weight of at least one. */
  ghost predicate EdgeJoins(edges: seq<real>, e: nat, n: nat)
    requires 3 * e + 3 <= |edges|
  {
    && edges[3 * e + 2] >= 1.0
    && exists i: nat, j: nat ::
         i < n && j < n && i != j && edges[3 * e] == (10 * i) as real && edges[3 * e + 1] == (10 * j) as real
  }

  lemma EdgeValidIs(edges: seq<real>, e: nat, n: nat)
    requires 3 * e + 3 <= |edges|
    ensures EdgeValid(edges, e, 10 * n) <==> EdgeJoins(edges, e, n)
  {
    var a, b := edges[3 * e], edges[3 * e + 1];
    if 0.0 <= a && 0.0 <= b {
      TenfoldIs(a, n);
      TenfoldIs(b, n);
    }
    if EdgeValid(edges, e, 10 * n) {
      var i: nat :| i < n && a == (10 * i) as real;
      var j: nat :| j < n && b == (10 * j) as real;
      assert i != j;
    }
  }

  ghost predicate Shaped(nodes: seq<real>, edges: seq<real>, n: nat, m: nat) {
    && |nodes| == 10 * n && |edges| == 3 * m && n <= 5000 && m <= 200000
    && forall e: nat :: e < m ==> EdgeJoins(edges, e, n)
  }

  /** A valid input is ten numbers each for at most 5,000 nodes and three each for at most 200,000 edges, and
      every edge joins two different nodes by the offsets of their rows, with a weight of at least one. */
  lemma ValidInputIs(nodes: seq<real>, edges: seq<real>)
    ensures ValidInput(nodes, edges) <==> exists n: nat, m: nat :: Shaped(nodes, edges, n, m)
  {
    if ValidInput(nodes, edges) {
      var n, m := |nodes| / 10, |edges| / 3;
      forall e: nat | e < m ensures EdgeJoins(edges, e, n) {
        assert EdgeValid(edges, e, |nodes|);
        EdgeValidIs(edges, e, n);
      }
      assert Shaped(nodes, edges, n, m);
    }
    if exists n: nat, m: nat :: Shaped(nodes, edges, n, m) {
      var n: nat, m: nat :| Shaped(nodes, edges, n, m);
      forall e | 0 <= e < |edges| / 3 ensures EdgeValid(edges, e, |nodes|) {
        EdgeValidIs(edges, e, n);
      }
    }
  }

  lemma OffsetTenfold(a: nat)
    ensures Tenfold((10 * a) as real)
  {
    assert (10 * a) as real / 10.0 == a as real;
  }

  lemma ListedValid(s: seq<real>, nodes: seq<Node>, edges: seq<Edge>, e: nat)
    requires Drawn(nodes, edges) && EdgesListed(s, nodes, edges, |edges|) && e < |edges|
    ensures 3 * e + 3 <= |s| && (EdgeValid(s, e, 10 * |nodes|) <==> edges[e].weight >= 1.0)
  {
    assert EdgeAt(s, nodes, e, edges[e]);
    var a :| 0 <= a < |nodes| && nodes[a].key == edges[e].source && s[3 * e] == (10 * a) as real;
    var b :| 0 <= b < |nodes| && nodes[b].key == edges[e].target && s[3 * e + 1] == (10 * b) as real;
    OffsetTenfold(a);
    OffsetTenfold(b);
  }

  /** What the layout is given passes its validation exactly when every weight is at least one. */
  lemma InputValid(m: seq<real>, s: seq<real>, nodes: seq<Node>, edges: seq<Edge>)
    requires Drawn(nodes, edges) && |nodes| <= MAX_NODES && |edges| <= MAX_EDGES
    requires NodesCounted(m, nodes, edges, |edges|) && EdgesListed(s, nodes, edges, |edges|)
    ensures ValidInput(m, s) <==> forall e :: 0 <= e < |edges| ==> edges[e].weight >= 1.0
  {
    forall e | 0 <= e < |edges| ensures EdgeValid(s, e, |m|) <==> edges[e].weight >= 1.0 {
      ListedValid(s, nodes, edges, e);
    }
    if ValidInput(m, s) {
      forall e | 0 <= e < |edges| ensures edges[e].weight >= 1.0 {
        assert EdgeValid(s, e, |m|);
      }
    }
  }

  // ----- coordinates -----

  predicate InReach(x: real) { -REACH <= x <= REACH }

  ghost predicate ValidCoordinates(c: seq<real>, order: nat) {
    |c| == 2 * order && forall i :: 0 <= i < |c| ==> InReach(c[i])
  }

  method ValidateCoordinates(c: array<real>, order: nat) returns (thrown: bool)
    ensures thrown <==> !ValidCoordinates(c[..], order)
  {
    if c.Length != 2 * order {
      return true;
    }
    for i := 0 to c.Length
      invariant forall j :: 0 <= j < i ==> InReach(c[j])
    {
      if !InReach(c[i]) {
        assert !InReach(c[..][i]);
        return true;
      }
    }
    thrown := false;
  }

  predicate CopiedAt(c: seq<real>, s: seq<real>, i: nat)
    requires 2 * i + 2 <= |c| && 10 * i + 10 <= |s|
  {
    c[2 * i] == s[10 * i] && c[2 * i + 1] == s[10 * i + 1]
  }

  method LayoutOutput(nodes: array<real>) returns (c: array<real>, thrown: bool)
    requires nodes.Length % 10 == 0
    ensures fresh(c) && c.Length == nodes.Length / 5
    ensures forall i :: 0 <= i < nodes.Length / 10 ==> CopiedAt(c[..], nodes[..], i)
    ensures thrown <==> !ValidCoordinates(c[..], nodes.Length / 10)
  {
    ghost var n := nodes.Length / 10;
    c := new real[nodes.Length / 5];
    assert nodes.Length == 10 * n && c.Length == 2 * n;
    for i := 0 to c.Length / 2
      invariant forall j :: 0 <= j < i ==> CopiedAt(c[..], nodes[..], j)
    {
      ghost var before := c[..];
      c[2 * i], c[2 * i + 1] := nodes[10 * i], nodes[10 * i + 1];
      forall j | 0 <= j < i ensures CopiedAt(c[..], nodes[..], j) {
        assert CopiedAt(before, nodes[..], j);
      }
    }
    thrown := ValidateCoordinates(c, nodes.Length / 10);
  }

  function Moved(n: Node, x: real, y: real): Node { n.(x := x, y := y) }

  /** Coordinates written into the drawn graph in node order; nothing is written when they are refused. */
  method ApplyCoordinates(nodes: array<Node>, c: array<real>) returns (thrown: bool)
    modifies nodes
    ensures thrown <==> !ValidCoordinates(c[..], nodes.Length)
    ensures thrown ==> nodes[..] == old(nodes[..])
    ensures !thrown ==> forall i :: 0 <= i < nodes.Length ==> nodes[i] == Moved(old(nodes[i]), c[2 * i], c[2 * i + 1])
  {
    thrown := ValidateCoordinates(c, nodes.Length);
    if thrown {
      return;
    }
    for i := 0 to nodes.Length
      invariant forall j :: 0 <= j < i ==> nodes[j] == Moved(old(nodes[j]), c[2 * j], c[2 * j + 1])
      invariant forall j :: i <= j < nodes.Length ==> nodes[j] == old(nodes[j])
    {
      nodes[i] := Moved(nodes[i], c[2 * i], c[2 * i + 1]);
    }
  }

  ghost predicate Carries(c: seq<real>, nodes: seq<Node>) {
    && |c| == 2 * |nodes|
    && forall i {:trigger nodes[i]} :: 0 <= i < |nodes| ==> c[2 * i] == nodes[i].x && c[2 * i + 1] == nodes[i].y
  }

  lemma OutputCarries(m: seq<real>, c: seq<real>, nodes: seq<Node>, edges: seq<Edge>)
    requires NodesCounted(m, nodes, edges, |edges|) && |c| == 2 * |nodes|
    requires forall i :: 0 <= i < |nodes| ==> CopiedAt(c, m, i)
    ensures Carries(c, nodes)
  {
    forall i | 0 <= i < |nodes| ensures c[2 * i] == nodes[i].x && c[2 * i + 1] == nodes[i].y {
      assert Counted(m, nodes[i], i, edges, |edges|) && CopiedAt(c, m, i);
      assert m[10 * i..10 * i + 10][0] == m[10 * i] && m[10 * i..10 * i + 10][1] == m[10 * i + 1];
    }
  }

  predicate NodeInReach(n: Node) { InReach(n.x) && InReach(n.y) }

  lemma CarriesReach(c: seq<real>, nodes: seq<Node>)
    requires Carries(c, nodes)
    ensures ValidCoordinates(c, |nodes|) <==> forall i :: 0 <= i < |nodes| ==> NodeInReach(nodes[i])
  {
    if ValidCoordinates(c, |nodes|) {
      forall i | 0 <= i < |nodes| ensures NodeInReach(nodes[i]) {
        assert InReach(c[2 * i]) && InReach(c[2 * i + 1]);
      }
    }
    if forall i :: 0 <= i < |nodes| ==> NodeInReach(nodes[i]) {
      forall j | 0 <= j < |c| ensures InReach(c[j]) {
        assert NodeInReach(nodes[j / 2]) && j == 2 * (j / 2) + j % 2;
      }
    }
  }

  /** Without any engine step the way there and back changes no node, and is refused exactly when some
      start lies out of reach. */
  method ThereAndBack(nodes: array<Node>, edges: seq<Edge>) returns (thrown: bool)
    requires Drawn(nodes[..], edges) && nodes.Length <= MAX_NODES && |edges| <= MAX_EDGES
    modifies nodes
    ensures nodes[..] == old(nodes[..])
    ensures thrown <==> exists i :: 0 <= i < nodes.Length && !NodeInReach(nodes[i])
  {
    ghost var start := nodes[..];
    var input := LayoutInput(nodes[..], edges);
    var c, refused := LayoutOutput(input.value.0);
    OutputCarries(input.value.0[..], c[..], start, edges);
    CarriesReach(c[..], start);
    thrown := ApplyCoordinates(nodes, c);
    forall i | 0 <= i < nodes.Length ensures nodes[..][i] == start[i] {
      assert nodes[i] == if thrown then start[i] else Moved(start[i], c[..][2 * i], c[..][2 * i + 1]);
    }
    assert forall i :: 0 <= i < nodes.Length ==> nodes[i] == start[i];
  }
}
