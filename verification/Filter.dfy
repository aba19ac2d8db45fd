/** The display filter: a threshold on pair weight, counted per bucket without regrouping. */
module Filter {
  import opened PairGraph
  import opened Results
  import opened Groups
  import opened Links
  import opened GroupIndex
  import opened Modularity

  const MAX_MINIMUM: int := 2000000

  datatype Filter = Filter(minimum: nat, matches: seq<bool>, shown: nat, internal: nat, external: nat,
                           groupInternal: seq<nat>, links: map<string, nat>)

  function Matches(g: Graph, minimum: nat): seq<bool> {
    seq(g.Size(), e requires 0 <= e < g.Size() => g.weight[e] >= minimum)
  }

  function Tally(counts: map<string, nat>, key: string): nat {
    if key in counts then counts[key] else 0
  }

  /** The crossing counters after the first `k` pairs. */
  ghost predicate Tallied(g: Graph, of: seq<nat>, matches: seq<bool>, k: nat, counts: map<string, nat>)
    requires g.Valid() && |of| == g.order && k <= g.Size() == |matches|
  {
    forall a: nat, b: nat :: a < b ==> Tally(counts, Key(a, b)) == Count(g, of, a, b, matches, k)
  }

  lemma TallyStep(g: Graph, of: seq<nat>, matches: seq<bool>, k: nat, counts: map<string, nat>, key: string)
    requires g.Valid() && |of| == g.order && k < g.Size() == |matches|
    requires Tallied(g, of, matches, k, counts)
    requires key == Key(Low(g, of, k), High(g, of, k))
    ensures !matches[k] || Low(g, of, k) == High(g, of, k) ==> Tallied(g, of, matches, k + 1, counts)
    ensures matches[k] && Low(g, of, k) != High(g, of, k) ==>
              Tallied(g, of, matches, k + 1, counts[key := Tally(counts, key) + 1])
  {
    if matches[k] && Low(g, of, k) != High(g, of, k) {
      var counts' := counts[key := Tally(counts, key) + 1];
      forall a: nat, b: nat | a < b ensures Tally(counts', Key(a, b)) == Count(g, of, a, b, matches, k + 1) {
        assert Tally(counts, Key(a, b)) == Count(g, of, a, b, matches, k);
        if Key(a, b) == key {
          KeyInjective(a, b, Low(g, of, k), High(g, of, k));
        }
      }
    }
  }

  /** What the counters mean: each is the size of the visible part of a bucket, and the three
      totals add up. */
  ghost predicate Recounts(g: Graph, index: Index, minimum: nat, f: Filter) {
    && g.Valid() && |index.groupOf| == g.order
    && f.minimum == minimum && f.matches == Matches(g, minimum)
    && f.shown == Shown(f.matches, g.Size()) && f.shown == f.internal + f.external
    && |f.groupInternal| == |index.groups|
    && (forall i :: 0 <= i < |index.groups| ==> f.groupInternal[i] == |Visible(index.groups[i].internal, f.matches)|)
    && (forall j :: 0 <= j < |index.links| ==>
          Tally(f.links, index.links[j].key) == |Visible(index.links[j].indices, f.matches)|)
    && f.internal == SumInside(g, index.groupOf, f.matches, |index.groups|, g.Size())
    && f.external == SumCrossing(g, index.groupOf, f.matches, index.links, |index.links|, g.Size())
  }

  /** All counters after the first `k` pairs, when `matches` is the whole selection. */
  ghost predicate Counted(g: Graph, of: seq<nat>, matches: seq<bool>, k: nat, shown: nat, internal: nat, external: nat,
                          inner: seq<nat>, links: map<string, nat>)
    requires Numbering(g, of, |inner|) && k <= g.Size() == |matches|
  {
    && shown == Shown(matches, k) && internal == ShownInside(g, of, matches, k) && internal + external == shown
    && (forall i :: 0 <= i < |inner| ==> inner[i] == Count(g, of, i, i, matches, k))
    && Tallied(g, of, matches, k, links)
  }

  lemma CountStep(g: Graph, of: seq<nat>, matches: seq<bool>, k: nat, shown: nat, internal: nat, external: nat,
                  inner: seq<nat>, links: map<string, nat>)
    requires Numbering(g, of, |inner|) && k < g.Size() == |matches|
    requires Counted(g, of, matches, k, shown, internal, external, inner, links)
    ensures var a, b := Low(g, of, k), High(g, of, k);
            var key := Key(a, b);
            && a < |inner|
            && (!matches[k] ==> Counted(g, of, matches, k + 1, shown, internal, external, inner, links))
            && (matches[k] && a == b ==>
                  Counted(g, of, matches, k + 1, shown + 1, internal + 1, external, inner[a := inner[a] + 1], links))
            && (matches[k] && a != b ==>
                  Counted(g, of, matches, k + 1, shown + 1, internal, external + 1, inner,
                          links[key := Tally(links, key) + 1]))
  {
    TallyStep(g, of, matches, k, links, Key(Low(g, of, k), High(g, of, k)));
  }

  lemma CountersRecount(g: Graph, m: Labels, index: Index, classes: seq<seq<nat>>, minimum: nat, f: Filter)
    requires Labelling(g, m) && Partitions(g, m, index, classes) && |f.groupInternal| == |index.groups|
    requires f.minimum == minimum && f.matches == Matches(g, minimum)
    requires Counted(g, index.groupOf, f.matches, g.Size(), f.shown, f.internal, f.external, f.groupInternal, f.links)
    ensures Recounts(g, index, minimum, f)
  {
    var of := index.groupOf;
    InsideAddsUp(g, of, f.matches, |classes|, g.Size());
    BucketsAddUp(g, of, |classes|, index.links, f.matches);
    forall i | 0 <= i < |index.groups|
      ensures f.groupInternal[i] == |Visible(index.groups[i].internal, f.matches)|
    {
      CountIsVisible(g, of, i, i, f.matches, g.Size());
    }
    forall j | 0 <= j < |index.links|
      ensures Tally(f.links, index.links[j].key) == |Visible(index.links[j].indices, f.matches)|
    {
      CountIsVisible(g, of, index.links[j].a, index.links[j].b, f.matches, g.Size());
    }
  }

  /** The counting pass. */
  method CountPairs(g: Graph, of: seq<nat>, n: nat, minimum: nat) returns (f: Filter)
    requires Numbering(g, of, n)
    ensures f.minimum == minimum && f.matches == Matches(g, minimum) && |f.groupInternal| == n
    ensures Counted(g, of, f.matches, g.Size(), f.shown, f.internal, f.external, f.groupInternal, f.links)
  {
    ghost var all := Matches(g, minimum);
    var matches := new bool[g.Size()](_ => false);
    var groupInternal: seq<nat>, links: map<string, nat> := seq(n, _ => 0), map[];
    var shown, internal, external := 0, 0, 0;
    for e := 0 to g.Size()
      invariant forall i :: 0 <= i < g.Size() ==> matches[i] == (i < e && all[i])
      invariant |groupInternal| == n
      invariant Counted(g, of, all, e, shown, internal, external, groupInternal, links)
    {
      CountStep(g, of, all, e, shown, internal, external, groupInternal, links);
      if g.weight[e] < minimum {
        continue;
      }
      matches[e] := true;
      shown := shown + 1;
      var a, b := of[g.left[e]], of[g.right[e]];
      if a == b {
        internal := internal + 1;
        groupInternal := groupInternal[a := groupInternal[a] + 1];
      } else {
        external := external + 1;
        var key := Key(if a < b then a else b, if a < b then b else a);
        links := links[key := Tally(links, key) + 1];
      }
    }
    assert matches[..] == all;
    f := Filter(minimum, matches[..], shown, internal, external, groupInternal, links);
  }

  /** The pairs shown are those at or above the threshold. */
  lemma ShownAreHeavy(g: Graph, minimum: nat, f: Filter)
    requires g.Valid() && f.matches == Matches(g, minimum) && f.shown == Shown(f.matches, g.Size())
    ensures |f.matches| == g.Size() && forall e :: 0 <= e < g.Size() ==> (f.matches[e] <==> g.weight[e] >= minimum)
    ensures f.shown == |set e: nat | e < g.Size() && g.weight[e] >= minimum|
  {
    ShownIsSize(f.matches, g.Size());
    assert (set e: nat | e < g.Size() && f.matches[e]) == set e: nat | e < g.Size() && g.weight[e] >= minimum;
  }

  /** A bucket's counter is the number of heavy pairs that lie in it. */
  lemma BucketIsHeavy(g: Graph, of: seq<nat>, minimum: nat, matches: seq<bool>, a: nat, b: nat)
    requires g.Valid() && |of| == g.order && matches == Matches(g, minimum) && a <= b
    ensures |Visible(Between(g, of, a, b, g.Size()), matches)|
            == |set e: nat | e < g.Size() && g.weight[e] >= minimum && {of[g.left[e]], of[g.right[e]]} == {a, b}|
  {
    CountIsVisible(g, of, a, b, matches, g.Size());
    CountIsSize(g, of, a, b, matches, g.Size());
    assert (set e: nat | e < g.Size() && matches[e] && {of[g.left[e]], of[g.right[e]]} == {a, b})
        == set e: nat | e < g.Size() && g.weight[e] >= minimum && {of[g.left[e]], of[g.right[e]]} == {a, b};
  }

  lemma GroupIsHeavy(g: Graph, of: seq<nat>, minimum: nat, matches: seq<bool>, i: nat)
    requires g.Valid() && |of| == g.order && matches == Matches(g, minimum)
    ensures |Visible(Between(g, of, i, i, g.Size()), matches)|
            == |set e: nat | e < g.Size() && g.weight[e] >= minimum && of[g.left[e]] == of[g.right[e]] == i|
  {
    BucketIsHeavy(g, of, minimum, matches, i, i);
    assert (set e: nat | e < g.Size() && g.weight[e] >= minimum && {of[g.left[e]], of[g.right[e]]} == {i, i})
        == set e: nat | e < g.Size() && g.weight[e] >= minimum && of[g.left[e]] == of[g.right[e]] == i;
  }

  lemma InsideIsHeavy(g: Graph, of: seq<nat>, minimum: nat, matches: seq<bool>, n: nat)
    requires Numbering(g, of, n) && matches == Matches(g, minimum)
    ensures SumInside(g, of, matches, n, g.Size())
            == |set e: nat | e < g.Size() && g.weight[e] >= minimum && of[g.left[e]] == of[g.right[e]]|
  {
    InsideAddsUp(g, of, matches, n, g.Size());
    InsideIsSize(g, of, matches, g.Size());
    assert (set e: nat | e < g.Size() && matches[e] && of[g.left[e]] == of[g.right[e]])
        == set e: nat | e < g.Size() && g.weight[e] >= minimum && of[g.left[e]] == of[g.right[e]];
  }

  /** What every part of a filter says about the weights of the graph. */
  lemma FilterMeans(g: Graph, m: Labels, index: Index, classes: seq<seq<nat>>, minimum: nat, f: Filter)
    requires Labelling(g, m) && Partitions(g, m, index, classes) && Recounts(g, index, minimum, f)
    ensures var of := index.groupOf;
            && |f.matches| == g.Size()
            && (forall e :: 0 <= e < g.Size() ==> (f.matches[e] <==> g.weight[e] >= minimum))
            && f.shown == |set e: nat | e < g.Size() && g.weight[e] >= minimum|
            && f.internal == |set e: nat | e < g.Size() && g.weight[e] >= minimum && of[g.left[e]] == of[g.right[e]]|
            && f.external == f.shown - f.internal
            && |f.groupInternal| == |index.groups|
            && (forall i :: 0 <= i < |index.groups| ==>
                  f.groupInternal[i]
                  == |set e: nat | e < g.Size() && g.weight[e] >= minimum && of[g.left[e]] == of[g.right[e]] == i|)
            && (forall j :: 0 <= j < |index.links| ==>
                  var a, b, key := index.links[j].a, index.links[j].b, index.links[j].key;
                  (if key in f.links then f.links[key] else 0)
                  == |set e: nat | e < g.Size() && g.weight[e] >= minimum && {of[g.left[e]], of[g.right[e]]} == {a, b}|)
  {
    var of := index.groupOf;
    ShownAreHeavy(g, minimum, f);
    InsideIsHeavy(g, of, minimum, f.matches, |index.groups|);
    forall i | 0 <= i < |index.groups|
      ensures f.groupInternal[i]
              == |set e: nat | e < g.Size() && g.weight[e] >= minimum && of[g.left[e]] == of[g.right[e]] == i|
    {
      GroupIsHeavy(g, of, minimum, f.matches, i);
    }
    forall j | 0 <= j < |index.links|
      ensures var a, b := index.links[j].a, index.links[j].b;
              Tally(f.links, index.links[j].key)
              == |set e: nat | e < g.Size() && g.weight[e] >= minimum && {of[g.left[e]], of[g.right[e]]} == {a, b}|
    {
      BucketIsHeavy(g, of, minimum, f.matches, index.links[j].a, index.links[j].b);
    }
  }

  /** Which pairs a threshold shows, and how many of them in all, within groups, across groups and in every
      single bucket. */
  method FilterPairs(g: Graph, m: Labels, index: Index, ghost classes: seq<seq<nat>>, minimum: int)
    returns (r: Option<Filter>)
    requires Labelling(g, m) && Partitions(g, m, index, classes)
    ensures r.Some? <==> 1 <= minimum <= MAX_MINIMUM
    ensures r.Some? ==> Recounts(g, index, minimum, r.value)
    ensures r.Some? ==> |r.value.matches| == g.Size()
    ensures r.Some? ==> forall e :: 0 <= e < g.Size() ==> (r.value.matches[e] <==> g.weight[e] >= minimum)
    ensures r.Some? ==> r.value.shown == |set e: nat | e < g.Size() && g.weight[e] >= minimum|
  {
    if minimum < 1 || minimum > MAX_MINIMUM {
      return None;
    }
    var f := CountPairs(g, index.groupOf, |index.groups|, minimum);
    CountersRecount(g, m, index, classes, minimum, f);
    ShownAreHeavy(g, minimum, f);
    r := Some(f);
  }

  /** A pair is shown by every threshold up to its own weight and hidden by every one above. */
  lemma ShownUpToItsWeight(g: Graph, index: Index, minimum: nat, f: Filter, e: nat)
    requires Recounts(g, index, minimum, f) && e < g.Size()
    ensures minimum == g.weight[e] ==> e in Visible([e], f.matches)
    ensures minimum == g.weight[e] + 1 ==> e !in Visible([e], f.matches)
  {
    VisibleHolds([e], f.matches);
    ShownAreHeavy(g, minimum, f);
  }

  /** Threshold 1 shows everything, so it reproduces the index's own counts. */
  lemma LowestThreshold(g: Graph, m: Labels, index: Index, classes: seq<seq<nat>>, f: Filter)
    requires Labelling(g, m) && Partitions(g, m, index, classes) && Recounts(g, index, 1, f)
    ensures f.shown == g.Size() && f.internal == index.internal && f.external == index.external
  {
    assert f.matches == AllShown(g.Size());
    AllAreShown(g.Size(), g.Size());
    SumInternalAll(g, index.groupOf, classes, index.groups, index.links, |index.groups|);
    SumExternalAll(g, index.groupOf, |classes|, index.links, |index.links|);
  }

  /** Raising the threshold only removes pairs, from any list. */
  lemma {:induction false} RaisingHides(g: Graph, es: seq<nat>, low: nat, high: nat)
    requires g.Valid() && low <= high && forall i :: 0 <= i < |es| ==> es[i] < g.Size()
    ensures forall e :: e in Visible(es, Matches(g, high)) ==> e in Visible(es, Matches(g, low))
    ensures |Visible(es, Matches(g, high))| <= |Visible(es, Matches(g, low))|
  {
    if es != [] {
      RaisingHides(g, es[..|es| - 1], low, high);
    }
  }
}
