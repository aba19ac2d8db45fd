/** Construction of the model from a loaded table: sorted wallets, numeric ends, weights,
    strengths and adjacency lists, filled row by row. */
module Build {
  import opened PairGraph
  import opened Model
  import opened Results
  import opened Ordering

  const MAX_ROWS: nat := 200000
  const MAX_WALLETS: nat := 5000
  const MAX_WEIGHT: nat := 2000000

  datatype Error = TooLarge | RepeatedWallet | BadPair

  /** `Number(text)` where it is a safe integer, `None` elsewhere. */
  type Reader = string -> Option<int>

  /** The row names two different known wallets and a weight in range. */
  predicate Admissible(wallets: seq<Signer>, row: Row, number: Reader) {
    && row.SignerA() in wallets && row.SignerB() in wallets && row.SignerA() != row.SignerB()
    && number(row.sharedMints).Some?
    && 1 <= number(row.sharedMints).value <= MAX_WEIGHT
  }

  /** `lookup` inverts the wallet list. */
  ghost predicate Inverts(lookup: map<Signer, nat>, wallets: seq<Signer>) {
    && (forall i :: 0 <= i < |wallets| ==> wallets[i] in lookup && lookup[wallets[i]] == i)
    && (forall w :: w in lookup ==> lookup[w] < |wallets| && wallets[lookup[w]] == w)
  }

  /** The model's numbers are the rows' own names and weights. */
  ghost predicate Represents(m: Model, number: Reader)
    requires m.Valid()
  {
    forall e :: 0 <= e < |m.rows| ==>
      && m.wallets[m.graph.left[e]] == m.rows[e].SignerA()
      && m.wallets[m.graph.right[e]] == m.rows[e].SignerB()
      && number(m.rows[e].sharedMints) == Some(m.graph.weight[e] as int)
  }

  /** The later entry wins, as in a map built from a list of entries. */
  method Lookup(wallets: seq<Signer>) returns (lookup: map<Signer, nat>)
    ensures |lookup| == |wallets| <==> Distinct(wallets)
    ensures Distinct(wallets) ==> Inverts(lookup, wallets)
  {
    lookup := map[];
    for i := 0 to |wallets|
      invariant forall w :: w in lookup <==> w in wallets[..i]
      invariant forall w :: w in lookup ==> lookup[w] < i && wallets[lookup[w]] == w
    {
      lookup := lookup[wallets[i] := i];
    }
    assert lookup.Keys == set w | w in wallets;
    DistinctSize(wallets);
    if Distinct(wallets) {
      forall i | 0 <= i < |wallets| ensures wallets[i] in lookup && lookup[wallets[i]] == i {
        assert wallets[lookup[wallets[i]]] == wallets[i];
      }
    }
  }

  /** Every pair of `g` is the pair of `g'` at the same index. */
  ghost predicate Extends(g: Graph, g': Graph) {
    && g.order == g'.order && |g.left| == |g.right| == |g.weight| && |g'.left| == |g'.right| == |g'.weight|
    && g.left <= g'.left && g.right <= g'.right && g.weight <= g'.weight
  }

  lemma {:induction false} ExtendedPrefix(g: Graph, g': Graph, v: nat, k: nat)
    requires g.Valid() && g'.Valid() && Extends(g, g') && k <= g.Size()
    ensures k <= g'.Size()
    ensures Strength(g', v, k) == Strength(g, v, k) && Incident(g', v, k) == Incident(g, v, k)
  {
    if k > 0 {
      ExtendedPrefix(g, g', v, k - 1);
    }
  }

  /** Strengths and adjacency lists of all pairs of `g`. */
  ghost predicate Indexed(g: Graph, strength: seq<nat>, adjacent: seq<seq<nat>>) {
    && g.Valid() && |strength| == |adjacent| == g.order
    && (forall v :: 0 <= v < g.order ==> strength[v] == Strength(g, v, g.Size()))
    && (forall v :: 0 <= v < g.order ==> adjacent[v] == Incident(g, v, g.Size()))
  }

  function WithPair(g: Graph, a: nat, b: nat, w: nat): Graph {
    Graph(g.order, g.left + [a], g.right + [b], g.weight + [w])
  }

  /** Two pushes and two additions keep the index when one pair is appended. */
  lemma AppendPair(g: Graph, a: nat, b: nat, w: nat, strength: seq<nat>, adjacent: seq<seq<nat>>)
    requires Indexed(g, strength, adjacent) && a < g.order && b < g.order && a != b && w >= 1
    ensures Indexed(WithPair(g, a, b, w), strength[a := strength[a] + w][b := strength[b] + w],
                    adjacent[a := adjacent[a] + [g.Size()]][b := adjacent[b] + [g.Size()]])
  {
    var g' := WithPair(g, a, b, w);
    forall v | 0 <= v < g.order
      ensures Strength(g', v, g.Size()) == strength[v] && Incident(g', v, g.Size()) == adjacent[v]
    {
      ExtendedPrefix(g, g', v, g.Size());
    }
  }

  /** The pairs read so far stand for the rows read so far. */
  ghost predicate Read(g: Graph, wallets: seq<Signer>, rows: seq<Row>, number: Reader) {
    && g.Valid() && g.order == |wallets| && g.Size() == |rows|
    && forall e :: 0 <= e < |rows| ==>
         && wallets[g.left[e]] == rows[e].SignerA() && wallets[g.right[e]] == rows[e].SignerB()
         && number(rows[e].sharedMints) == Some(g.weight[e] as int) && g.weight[e] <= MAX_WEIGHT
  }

  lemma ReadRows(g: Graph, wallets: seq<Signer>, rows: seq<Row>, number: Reader)
    requires Read(g, wallets, rows, number) && Distinct(wallets)
    ensures forall e :: 0 <= e < |rows| ==> Admissible(wallets, rows[e], number)
  {
  }

  lemma ReadPair(g: Graph, wallets: seq<Signer>, rows: seq<Row>, row: Row, a: nat, b: nat, w: nat, number: Reader)
    requires Read(g, wallets, rows, number)
    requires a < |wallets| && b < |wallets| && a != b && 1 <= w <= MAX_WEIGHT
    requires wallets[a] == row.SignerA() && wallets[b] == row.SignerB() && number(row.sharedMints) == Some(w as int)
    ensures Read(WithPair(g, a, b, w), wallets, rows + [row], number)
  {
  }

  /** One row's ends and weight, if it may enter the model. */
  method Resolve(row: Row, wallets: seq<Signer>, lookup: map<Signer, nat>, number: Reader)
    returns (ok: bool, a: nat, b: nat, w: nat)
    requires Inverts(lookup, wallets)
    ensures ok <==> Admissible(wallets, row, number)
    ensures ok ==> a < |wallets| && b < |wallets| && a != b && 1 <= w <= MAX_WEIGHT
    ensures ok ==> wallets[a] == row.SignerA() && wallets[b] == row.SignerB()
    ensures ok ==> number(row.sharedMints) == Some(w as int)
  {
    ok, a, b, w := false, 0, 0, 0;
    var value := number(row.sharedMints);
    if row.SignerA() !in lookup || row.SignerB() !in lookup || lookup[row.SignerA()] == lookup[row.SignerB()]
       || value.None? || value.value < 1 || value.value > MAX_WEIGHT {
      return;
    }
    ok, a, b, w := true, lookup[row.SignerA()], lookup[row.SignerB()], value.value;
  }

  /** The arrays that the construction loop fills. */
  class Tables {
    var left: array<nat>
    var right: array<nat>
    var weight: array<nat>
    var strength: array<nat>
    var adjacent: array<seq<nat>>

    ghost function Arrays(): set<object>
      reads this
    {
      {left, right, weight, strength, adjacent}
    }

    /** The first `k` slots hold `g`, and strengths and lists index it. */
    ghost predicate Hold(g: Graph, k: nat)
      reads this, left, right, weight, strength, adjacent
    {
      && left != right && left != weight && right != weight
      && left != strength && right != strength && weight != strength
      && k <= left.Length == right.Length == weight.Length
      && left[..k] == g.left && right[..k] == g.right && weight[..k] == g.weight
      && Indexed(g, strength[..], adjacent[..])
    }

    constructor (wallets: nat, rows: nat)
      ensures Hold(Graph(wallets, [], [], []), 0) && left.Length == rows && fresh(Arrays())
    {
      left, right, weight := new nat[rows], new nat[rows], new nat[rows];
      strength := new nat[wallets](_ => 0);
      adjacent := new seq<nat>[wallets](_ => []);
    }

    /** One pair: its slot, two pushes and two additions. */
    method Add(edge: nat, a: nat, b: nat, w: nat, ghost g: Graph)
      requires Hold(g, edge) && edge < left.Length && edge == g.Size()
      requires a < g.order && b < g.order && a != b && w >= 1
      modifies left, right, weight, strength, adjacent
      ensures Hold(WithPair(g, a, b, w), edge + 1)
    {
      AppendPair(g, a, b, w, strength[..], adjacent[..]);
      left[edge], right[edge], weight[edge] := a, b, w;
      adjacent[a] := adjacent[a] + [edge];
      adjacent[b] := adjacent[b] + [edge];
      strength[a] := strength[a] + w;
      strength[b] := strength[b] + w;
    }
  }

  method IndexRows(wallets: seq<Signer>, rows: seq<Row>, lookup: map<Signer, nat>, number: Reader)
    returns (r: Option<Model>)
    requires Inverts(lookup, wallets)
    ensures r.Some? <==> forall e :: 0 <= e < |rows| ==> Admissible(wallets, rows[e], number)
    ensures r.Some? ==>
              && r.value.rows == rows && r.value.wallets == wallets
              && Indexed(r.value.graph, r.value.strength, r.value.adjacent)
              && Read(r.value.graph, wallets, rows, number)
  {
    var t := new Tables(|wallets|, |rows|);
    ghost var g := Graph(|wallets|, [], [], []);
    for edge := 0 to |rows|
      invariant t.Hold(g, edge) && t.left.Length == |rows| && fresh(t.Arrays())
      invariant Read(g, wallets, rows[..edge], number)
    {
      var ok, a, b, w := Resolve(rows[edge], wallets, lookup, number);
      if !ok {
        return None;
      }
      t.Add(edge, a, b, w, g);
      ReadPair(g, wallets, rows[..edge], rows[edge], a, b, w, number);
      assert rows[..edge + 1] == rows[..edge] + [rows[edge]];
      g := WithPair(g, a, b, w);
    }
    assert rows[..|rows|] == rows;
    ReadRows(g, wallets, rows, number);
    assert t.left[..] == g.left && t.right[..] == g.right && t.weight[..] == g.weight;
    var graph := Graph(|wallets|, t.left[..], t.right[..], t.weight[..]);
    r := Some(Model(rows, wallets, graph, t.strength[..], t.adjacent[..]));
  }

  lemma SortedByForm(wallets: seq<Signer>, sorted: seq<Signer>)
    requires sorted == Sort(wallets, PrintsBefore)
    ensures forall i, j :: 0 <= i < j < |sorted| ==> !TextLess(sorted[j].form, sorted[i].form)
  {
    TextCompares();
    assert Comparison(PrintsBefore);
    SortSorts(wallets, PrintsBefore);
    forall i, j | 0 <= i < j < |sorted| ensures !TextLess(sorted[j].form, sorted[i].form) {
      assert !PrintsBefore(sorted[j], sorted[i]);
    }
  }

  /** Build the model or reject the table: the three checks in the code's order. */
  method Index(wallets: seq<Signer>, rows: seq<Row>, number: Reader)
    returns (r: Result<Model, Error>, lookup: map<Signer, nat>)
    ensures r == Err(TooLarge) <==> |rows| > MAX_ROWS || |wallets| > MAX_WALLETS
    ensures r == Err(RepeatedWallet) <==> r != Err(TooLarge) && !Distinct(wallets)
    ensures r.Ok? <==> |rows| <= MAX_ROWS && |wallets| <= MAX_WALLETS && Distinct(wallets)
                       && forall e :: 0 <= e < |rows| ==> Admissible(wallets, rows[e], number)
    ensures r.Ok? ==>
              && r.value.Valid() && r.value.rows == rows && r.value.wallets == Sort(wallets, PrintsBefore)
              && Represents(r.value, number) && Inverts(lookup, r.value.wallets)
    ensures r.Ok? ==> multiset(r.value.wallets) == multiset(wallets)
    ensures r.Ok? ==> forall i, j :: 0 <= i < j < |wallets| ==>
                        !TextLess(r.value.wallets[j].form, r.value.wallets[i].form)
  {
    lookup := map[];
    SortedByForm(wallets, Sort(wallets, PrintsBefore));
    if |rows| > MAX_ROWS || |wallets| > MAX_WALLETS {
      return Err(TooLarge), lookup;
    }
    var sorted := Sort(wallets, PrintsBefore);
    SameItems(wallets, sorted);
    lookup := Lookup(sorted);
    DistinctCounts(wallets);
    DistinctCounts(sorted);
    if |lookup| != |sorted| {
      return Err(RepeatedWallet), lookup;
    }
    var m := IndexRows(sorted, rows, lookup, number);
    assert forall e :: 0 <= e < |rows| ==>
      (Admissible(wallets, rows[e], number) <==> Admissible(sorted, rows[e], number));
    r := if m.Some? then Ok(m.value) else Err(BadPair);
  }
}
