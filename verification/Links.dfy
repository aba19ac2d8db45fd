/** Pair buckets: every pair goes to the internal list of one group or to one crossing link, and
    the bucket sizes always add up, for all pairs and for any selection of them. */
module Links {
  import opened PairGraph
  import opened Decimal
  import opened Groups

  // ----- link keys -----

  /** The text key of a crossing link. */
  function Key(a: nat, b: nat): string {
    Print(a) + ":" + Print(b)
  }

  lemma KeyInjective(a: nat, b: nat, c: nat, d: nat)
    requires Key(a, b) == Key(c, d)
    ensures a == c && b == d
  {
    PrintCanonical(a);
    PrintCanonical(c);
    DigitsEnd(':', Print(a), Print(b), Print(c), Print(d));
    PrintInjective(a, c);
    PrintInjective(b, d);
  }

  // ----- sizes of selections -----

  /** The selected ones of the listed pairs: `visibleIndices`. */
  function Visible(es: seq<nat>, matches: seq<bool>): seq<nat> {
    if es == [] then []
    else
      var e, init := es[|es| - 1], Visible(es[..|es| - 1], matches);
      if e < |matches| && matches[e] then init + [e] else init
  }

  lemma VisibleAppend(es: seq<nat>, e: nat, matches: seq<bool>)
    ensures Visible(es + [e], matches)
            == if e < |matches| && matches[e] then Visible(es, matches) + [e] else Visible(es, matches)
  {
  }

  /** How many of the first `k` pairs are selected. */
  function Shown(matches: seq<bool>, k: nat): nat
    requires k <= |matches|
  {
    if k == 0 then 0 else Shown(matches, k - 1) + if matches[k - 1] then 1 else 0
  }

  /** How many of the first `k` pairs are selected and stay inside one group. */
  function ShownInside(g: Graph, of: seq<nat>, matches: seq<bool>, k: nat): nat
    requires g.Valid() && |of| == g.order && k <= g.Size() == |matches|
  {
    if k == 0 then 0
    else ShownInside(g, of, matches, k - 1) + if matches[k - 1] && Low(g, of, k - 1) == High(g, of, k - 1) then 1 else 0
  }

  /** How many of the first `k` pairs are selected and lie between groups `a` and `b`. */
  function Count(g: Graph, of: seq<nat>, a: nat, b: nat, matches: seq<bool>, k: nat): nat
    requires g.Valid() && |of| == g.order && k <= g.Size() == |matches|
  {
    if k == 0 then 0
    else Count(g, of, a, b, matches, k - 1)
         + if matches[k - 1] && Low(g, of, k - 1) == a && High(g, of, k - 1) == b then 1 else 0
  }

  lemma {:induction false} CountIsVisible(g: Graph, of: seq<nat>, a: nat, b: nat, matches: seq<bool>, k: nat)
    requires g.Valid() && |of| == g.order && k <= g.Size() == |matches|
    ensures |Visible(Between(g, of, a, b, k), matches)| == Count(g, of, a, b, matches, k)
  {
    if k > 0 {
      CountIsVisible(g, of, a, b, matches, k - 1);
      VisibleAppend(Between(g, of, a, b, k - 1), k - 1, matches);
    }
  }

  // ----- what is counted -----

  lemma {:induction false} VisibleHolds(es: seq<nat>, matches: seq<bool>)
    ensures forall e :: e in Visible(es, matches) <==> e in es && e < |matches| && matches[e]
  {
    if es != [] {
      VisibleHolds(es[..|es| - 1], matches);
      assert es == es[..|es| - 1] + [es[|es| - 1]];
    }
  }

  lemma {:induction false} ShownIsSize(matches: seq<bool>, k: nat)
    requires k <= |matches|
    ensures Shown(matches, k) == |set e: nat | e < k && matches[e]|
  {
    if k > 0 {
      ShownIsSize(matches, k - 1);
      var before, now := set e: nat | e < k - 1 && matches[e], set e: nat | e < k && matches[e];
      assert now == if matches[k - 1] then before + {k - 1} else before;
    }
  }

  lemma {:induction false} InsideIsSize(g: Graph, of: seq<nat>, matches: seq<bool>, k: nat)
    requires g.Valid() && |of| == g.order && k <= g.Size() == |matches|
    ensures ShownInside(g, of, matches, k) == |set e: nat | e < k && matches[e] && of[g.left[e]] == of[g.right[e]]|
  {
    if k > 0 {
      InsideIsSize(g, of, matches, k - 1);
      var before := set e: nat | e < k - 1 && matches[e] && of[g.left[e]] == of[g.right[e]];
      var now := set e: nat | e < k && matches[e] && of[g.left[e]] == of[g.right[e]];
      assert now == if matches[k - 1] && of[g.left[k - 1]] == of[g.right[k - 1]] then before + {k - 1} else before;
    }
  }

  lemma LowHigh(g: Graph, of: seq<nat>, a: nat, b: nat, e: nat)
    requires g.Valid() && |of| == g.order && e < g.Size() && a <= b
    ensures Low(g, of, e) == a && High(g, of, e) == b <==> {of[g.left[e]], of[g.right[e]]} == {a, b}
  {
    var x, y := of[g.left[e]], of[g.right[e]];
    assert x in {x, y} && y in {x, y} && a in {a, b} && b in {a, b};
  }

  /** With `a == b`, the pairs inside one group. */
  lemma {:induction false} CountIsSize(g: Graph, of: seq<nat>, a: nat, b: nat, matches: seq<bool>, k: nat)
    requires g.Valid() && |of| == g.order && k <= g.Size() == |matches| && a <= b
    ensures Count(g, of, a, b, matches, k)
            == |set e: nat | e < k && matches[e] && {of[g.left[e]], of[g.right[e]]} == {a, b}|
  {
    if k > 0 {
      CountIsSize(g, of, a, b, matches, k - 1);
      LowHigh(g, of, a, b, k - 1);
      var before := set e: nat | e < k - 1 && matches[e] && {of[g.left[e]], of[g.right[e]]} == {a, b};
      var now := set e: nat | e < k && matches[e] && {of[g.left[e]], of[g.right[e]]} == {a, b};
      var last := {of[g.left[k - 1]], of[g.right[k - 1]]} == {a, b};
      assert now == if matches[k - 1] && last then before + {k - 1} else before;
    }
  }

  /** Selected pairs over the internal lists of the first `n` groups. */
  function SumInside(g: Graph, of: seq<nat>, matches: seq<bool>, n: nat, k: nat): nat
    requires g.Valid() && |of| == g.order && k <= g.Size() == |matches|
  {
    if n == 0 then 0 else SumInside(g, of, matches, n - 1, k) + Count(g, of, n - 1, n - 1, matches, k)
  }

  lemma {:induction false} SumInsideStep(g: Graph, of: seq<nat>, matches: seq<bool>, n: nat, k: nat)
    requires g.Valid() && |of| == g.order && 0 < k <= g.Size() == |matches|
    ensures SumInside(g, of, matches, n, k) == SumInside(g, of, matches, n, k - 1)
              + if matches[k - 1] && Low(g, of, k - 1) == High(g, of, k - 1) < n then 1 else 0
  {
    if n > 0 {
      SumInsideStep(g, of, matches, n - 1, k);
    }
  }

  lemma {:induction false} SumInsideEmpty(g: Graph, of: seq<nat>, matches: seq<bool>, n: nat)
    requires g.Valid() && |of| == g.order && g.Size() == |matches|
    ensures SumInside(g, of, matches, n, 0) == 0
  {
    if n > 0 {
      SumInsideEmpty(g, of, matches, n - 1);
    }
  }

  lemma {:induction false} InsideAddsUp(g: Graph, of: seq<nat>, matches: seq<bool>, n: nat, k: nat)
    requires Numbering(g, of, n) && k <= g.Size() == |matches|
    ensures SumInside(g, of, matches, n, k) == ShownInside(g, of, matches, k)
  {
    if k == 0 {
      SumInsideEmpty(g, of, matches, n);
    } else {
      InsideAddsUp(g, of, matches, n, k - 1);
      SumInsideStep(g, of, matches, n, k);
    }
  }

  // ----- crossing links -----

  predicate LinkBefore(x: Link, y: Link) {
    x.a < y.a || (x.a == y.a && x.b < y.b)
  }

  /** Links name different pairs of groups, lower number first, in ascending order. */
  ghost predicate Ascending(links: seq<Link>) {
    && (forall i :: 0 <= i < |links| ==> links[i].a < links[i].b)
    && (forall i, j :: 0 <= i < j < |links| ==> LinkBefore(links[i], links[j]))
  }

  /** Some link joins groups `a` and `b`. */
  ghost predicate HasLink(links: seq<Link>, a: nat, b: nat) {
    exists i :: 0 <= i < |links| && links[i].a == a && links[i].b == b
  }

  ghost predicate Covers(g: Graph, of: seq<nat>, links: seq<Link>)
    requires g.Valid() && |of| == g.order
  {
    forall e {:trigger Low(g, of, e)} :: 0 <= e < g.Size() && Low(g, of, e) != High(g, of, e) ==>
      HasLink(links, Low(g, of, e), High(g, of, e))
  }

  /** How many of the first `j` links join `a` and `b`. */
  function Matching(links: seq<Link>, j: nat, a: nat, b: nat): nat
    requires j <= |links|
  {
    if j == 0 then 0 else Matching(links, j - 1, a, b) + if links[j - 1].a == a && links[j - 1].b == b then 1 else 0
  }

  lemma {:induction false} MatchesOnce(links: seq<Link>, j: nat, a: nat, b: nat)
    requires Ascending(links) && j <= |links|
    ensures Matching(links, j, a, b) == if exists i :: 0 <= i < j && links[i].a == a && links[i].b == b then 1 else 0
  {
    if j > 0 {
      MatchesOnce(links, j - 1, a, b);
      if exists i :: 0 <= i < j - 1 && links[i].a == a && links[i].b == b {
        var i :| 0 <= i < j - 1 && links[i].a == a && links[i].b == b;
        assert LinkBefore(links[i], links[j - 1]);
      }
    }
  }

  /** Selected pairs over the first `j` crossing links. */
  function SumCrossing(g: Graph, of: seq<nat>, matches: seq<bool>, links: seq<Link>, j: nat, k: nat): nat
    requires g.Valid() && |of| == g.order && k <= g.Size() == |matches| && j <= |links|
  {
    if j == 0 then 0
    else SumCrossing(g, of, matches, links, j - 1, k) + Count(g, of, links[j - 1].a, links[j - 1].b, matches, k)
  }

  lemma {:induction false} SumCrossingStep(g: Graph, of: seq<nat>, matches: seq<bool>, links: seq<Link>, j: nat, k: nat)
    requires g.Valid() && |of| == g.order && 0 < k <= g.Size() == |matches| && j <= |links|
    ensures SumCrossing(g, of, matches, links, j, k) == SumCrossing(g, of, matches, links, j, k - 1)
              + if matches[k - 1] then Matching(links, j, Low(g, of, k - 1), High(g, of, k - 1)) else 0
  {
    if j > 0 {
      SumCrossingStep(g, of, matches, links, j - 1, k);
    }
  }

  lemma {:induction false} SumCrossingEmpty(g: Graph, of: seq<nat>, matches: seq<bool>, links: seq<Link>, j: nat)
    requires g.Valid() && |of| == g.order && g.Size() == |matches| && j <= |links|
    ensures SumCrossing(g, of, matches, links, j, 0) == 0
  {
    if j > 0 {
      SumCrossingEmpty(g, of, matches, links, j - 1);
    }
  }

  lemma {:induction false} CrossingAddsUp(g: Graph, of: seq<nat>, matches: seq<bool>, links: seq<Link>, k: nat)
    requires g.Valid() && |of| == g.order && k <= g.Size() == |matches| && Ascending(links) && Covers(g, of, links)
    ensures SumCrossing(g, of, matches, links, |links|, k) + ShownInside(g, of, matches, k) == Shown(matches, k)
  {
    if k == 0 {
      SumCrossingEmpty(g, of, matches, links, |links|);
    } else {
      CrossingAddsUp(g, of, matches, links, k - 1);
      SumCrossingStep(g, of, matches, links, |links|, k);
      MatchesOnce(links, |links|, Low(g, of, k - 1), High(g, of, k - 1));
      assert Low(g, of, k - 1) != High(g, of, k - 1) ==> HasLink(links, Low(g, of, k - 1), High(g, of, k - 1));
    }
  }

  /** Every selection of pairs is shared out exactly among the internal lists and the links. */
  lemma BucketsAddUp(g: Graph, of: seq<nat>, n: nat, links: seq<Link>, matches: seq<bool>)
    requires Numbering(g, of, n) && Ascending(links) && Covers(g, of, links) && |matches| == g.Size()
    ensures SumInside(g, of, matches, n, g.Size()) + SumCrossing(g, of, matches, links, |links|, g.Size())
            == Shown(matches, g.Size())
  {
    InsideAddsUp(g, of, matches, n, g.Size());
    CrossingAddsUp(g, of, matches, links, g.Size());
  }
}
