/** What a drawing shows, told by the rows and groups themselves: keys, ends and weights of every edge. */
module Drawings {
  import opened PairGraph
  import opened Model
  import opened Ordering
  import opened Groups
  import opened GroupIndex
  import opened Pipeline
  import Build

  // ----- weights of all edges -----

  function Sum(weights: seq<nat>): nat {
    if weights == [] then 0 else Sum(weights[..|weights| - 1]) + weights[|weights| - 1]
  }

  lemma {:induction false} SumWithout(weights: seq<nat>, p: nat)
    requires p < |weights|
    ensures Sum(weights) == Sum(weights[..p] + weights[p + 1..]) + weights[p]
  {
    var last := |weights| - 1;
    if p == last {
      assert weights[..p] + weights[p + 1..] == weights[..last];
    } else {
      SumWithout(weights[..last], p);
      var rest := weights[..p] + weights[p + 1..];
      assert rest[..|rest| - 1] == weights[..last][..p] + weights[..last][p + 1..];
      assert rest[|rest| - 1] == weights[last];
    }
  }

  lemma {:induction false} LinkWeightsAddUp(links: seq<Link>, j: nat)
    requires j <= |links|
    ensures Sum(LinkWeights(links)[..j]) == SumExternal(links, j)
  {
    if j > 0 {
      LinkWeightsAddUp(links, j - 1);
      assert LinkWeights(links)[..j][..j - 1] == LinkWeights(links)[..j - 1];
    }
  }

  /** The weights of the overview add up to the number of pairs that cross between groups. */
  lemma OverviewWeights(o: Opened, d: Drawing, number: Build.Reader, eps: real, classes: seq<seq<nat>>)
    requires Open(o, number, eps, classes) && DrawnAs(o, Overview, d)
    ensures var g, of := o.model.graph, o.index.groupOf;
            Sum(d.weights) + |set e: nat | e < g.Size() && of[g.left[e]] == of[g.right[e]]| == g.Size()
  {
    var links := o.index.links;
    LinkWeightsAddUp(links, |links|);
    assert LinkWeights(links)[..|links|] == LinkWeights(links);
    CountersCount(o.model.graph, o.membership, o.index, classes);
  }

  lemma LeftOut(indices: seq<nat>, p: nat, n: nat)
    requires Distinct(indices) && (forall e: nat :: e in indices <==> e < n)
    requires p < |indices| && indices[p] == n - 1
    ensures var rest := indices[..p] + indices[p + 1..];
            Distinct(rest) && forall e: nat :: e in rest <==> e < n - 1
  {
    var rest := indices[..p] + indices[p + 1..];
    forall i | 0 <= i < |rest| ensures rest[i] == indices[if i < p then i else i + 1] {
    }
    forall e: nat ensures e in rest <==> e < n - 1 {
      if e < n - 1 {
        assert e in indices;
        var i :| 0 <= i < |indices| && indices[i] == e;
        assert rest[if i < p then i else i - 1] == e;
      }
      if e in rest {
        var i :| 0 <= i < |rest| && rest[i] == e;
        assert indices[if i < p then i else i + 1] == e;
        assert e in indices;
      }
    }
  }

  lemma WeightsWithout(g: Graph, indices: seq<nat>, p: nat, rest: seq<nat>)
    requires g.Valid() && p < |indices| && rest == indices[..p] + indices[p + 1..]
    requires forall i :: 0 <= i < |indices| ==> indices[i] < |g.weight|
    ensures Sum(PairWeights(g, indices)) == Sum(PairWeights(g, rest)) + g.weight[indices[p]]
  {
    SumWithout(PairWeights(g, indices), p);
    assert PairWeights(g, indices)[..p] + PairWeights(g, indices)[p + 1..] == PairWeights(g, rest);
  }

  /** A list of all numbers below `n`, each once, sums up every weight. */
  lemma {:induction false} AllWeights(g: Graph, indices: seq<nat>, n: nat)
    requires g.Valid() && n <= g.Size() && Distinct(indices) && forall e: nat :: e in indices <==> e < n
    requires forall i :: 0 <= i < |indices| ==> indices[i] < |g.weight|
    ensures Sum(PairWeights(g, indices)) == Weight(g, n)
  {
    if n == 0 {
      forall i | 0 <= i < |indices| ensures indices[i] < 0 {
        assert indices[i] in indices;
      }
      DistinctBelow(indices, 0);
    } else {
      assert n - 1 in indices;
      var p :| 0 <= p < |indices| && indices[p] == n - 1;
      var rest := indices[..p] + indices[p + 1..];
      LeftOut(indices, p, n);
      AllWeights(g, rest, n - 1);
      WeightsWithout(g, indices, p, rest);
    }
  }

  /** The weights of the page view add up to the whole weight of the graph. */
  lemma PageWeights(o: Opened, d: Drawing, number: Build.Reader, eps: real, classes: seq<seq<nat>>)
    requires Open(o, number, eps, classes) && DrawnAs(o, PageView, d)
    ensures Sum(d.weights) == Weight(o.model.graph, o.model.graph.Size())
  {
    var c :| Closed(o.model, c) && Shows(o, PageView, c) && d == ChosenDrawing(o.model, c);
    AllWeights(o.model.graph, c.indices, o.model.graph.Size());
  }
}
