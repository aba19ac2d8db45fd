/** The group index as the display code builds it, in one pass over the pairs. */
module GroupIndex {
  import opened PairGraph
  import opened Decimal
  import opened Modularity
  import opened Ordering
  import opened Groups
  import opened Links

  datatype Index = Index(groups: seq<Group>, groupOf: seq<nat>, links: seq<Link>, internal: nat, external: nat)

  /** The links that touch group `i`, in link order. */
  function LinksOf(links: seq<Link>, i: nat, j: nat): seq<Link>
    requires j <= |links|
  {
    if j == 0 then []
    else
      var ls := LinksOf(links, i, j - 1);
      if links[j - 1].a == i || links[j - 1].b == i then ls + [links[j - 1]] else ls
  }

  /** Groups hold their class, their internal pairs below `k`, and their links among the first `j`. */
  ghost predicate Filled(g: Graph, of: seq<nat>, classes: seq<seq<nat>>, groups: seq<Group>, k: nat, links: seq<Link>,
                         j: nat)
  {
    && Numbering(g, of, |classes|) && k <= g.Size() && j <= |links| && |groups| == |classes|
    && forall i :: 0 <= i < |groups| ==>
         groups[i] == Group(i, classes[i], Between(g, of, i, i, k), LinksOf(links, i, j))
  }

  /** The crossing map after the first `k` pairs: `slots` finds a link by its key. */
  ghost predicate Crossed(g: Graph, of: seq<nat>, n: nat, k: nat, slots: map<string, nat>, crossing: seq<Link>) {
    && Numbering(g, of, n) && k <= g.Size()
    && (forall i :: 0 <= i < |crossing| ==>
          && crossing[i].a < crossing[i].b < n && crossing[i].key == Key(crossing[i].a, crossing[i].b)
          && crossing[i].key in slots && slots[crossing[i].key] == i
          && crossing[i].indices == Between(g, of, crossing[i].a, crossing[i].b, k) && crossing[i].indices != [])
    && (forall s :: s in slots ==> slots[s] < |crossing| && crossing[slots[s]].key == s)
    && (forall e {:trigger Low(g, of, e)} :: 0 <= e < k && Low(g, of, e) != High(g, of, e) ==>
          Key(Low(g, of, e), High(g, of, e)) in slots)
  }

  lemma {:induction false} NothingBetween(g: Graph, of: seq<nat>, a: nat, b: nat, k: nat)
    requires g.Valid() && |of| == g.order && k <= g.Size()
    requires forall e {:trigger Low(g, of, e)} :: 0 <= e < k ==> Low(g, of, e) != a || High(g, of, e) != b
    ensures Between(g, of, a, b, k) == []
  {
    if k > 0 {
      NothingBetween(g, of, a, b, k - 1);
    }
  }

  lemma CrossSkip(g: Graph, of: seq<nat>, n: nat, k: nat, slots: map<string, nat>, crossing: seq<Link>)
    requires Crossed(g, of, n, k, slots, crossing) && k < g.Size() && Low(g, of, k) == High(g, of, k)
    ensures Crossed(g, of, n, k + 1, slots, crossing)
  {
  }

  lemma CrossPush(g: Graph, of: seq<nat>, n: nat, k: nat, slots: map<string, nat>, crossing: seq<Link>, key: string)
    requires Crossed(g, of, n, k, slots, crossing) && k < g.Size() && Low(g, of, k) < High(g, of, k)
    requires key == Key(Low(g, of, k), High(g, of, k)) && key in slots
    ensures var link := crossing[slots[key]];
            Crossed(g, of, n, k + 1, slots, crossing[slots[key] := link.(indices := link.indices + [k])])
  {
    var link := crossing[slots[key]];
    KeyInjective(link.a, link.b, Low(g, of, k), High(g, of, k));
    forall i | 0 <= i < |crossing| && i != slots[key]
      ensures Between(g, of, crossing[i].a, crossing[i].b, k + 1) == crossing[i].indices
    {
      assert crossing[i].key != key;
    }
  }

  lemma CrossNew(g: Graph, of: seq<nat>, n: nat, k: nat, slots: map<string, nat>, crossing: seq<Link>, key: string)
    requires Crossed(g, of, n, k, slots, crossing) && k < g.Size() && Low(g, of, k) < High(g, of, k)
    requires key == Key(Low(g, of, k), High(g, of, k)) && key !in slots
    ensures Crossed(g, of, n, k + 1, slots[key := |crossing|],
                    crossing + [Link(key, Low(g, of, k), High(g, of, k), [k])])
  {
    NothingBetween(g, of, Low(g, of, k), High(g, of, k), k);
  }

  /** Append a crossing pair to its link, creating the link if it is the first. */
  method AddCrossing(g: Graph, of: seq<nat>, ghost n: nat, k: nat, slots: map<string, nat>, crossing: seq<Link>)
    returns (slots': map<string, nat>, crossing': seq<Link>)
    requires Crossed(g, of, n, k, slots, crossing) && k < g.Size() && Low(g, of, k) < High(g, of, k)
    ensures Crossed(g, of, n, k + 1, slots', crossing')
  {
    var a, b := of[g.left[k]], of[g.right[k]];
    var low, high := if a < b then a else b, if a < b then b else a;
    var key := Key(low, high);
    if key !in slots {
      CrossNew(g, of, n, k, slots, crossing, key);
      slots', crossing' := slots[key := |crossing|], crossing + [Link(key, low, high, [k])];
    } else {
      CrossPush(g, of, n, k, slots, crossing, key);
      var link := crossing[slots[key]];
      slots', crossing' := slots, crossing[slots[key] := link.(indices := link.indices + [k])];
    }
  }

  function PushInternal(groups: seq<Group>, a: nat, e: nat): seq<Group>
    requires a < |groups|
  {
    groups[a := groups[a].(internal := groups[a].internal + [e])]
  }

  lemma FillInternal(g: Graph, of: seq<nat>, classes: seq<seq<nat>>, groups: seq<Group>, k: nat)
    requires Filled(g, of, classes, groups, k, [], 0) && k < g.Size()
    ensures Low(g, of, k) != High(g, of, k) ==> Filled(g, of, classes, groups, k + 1, [], 0)
    ensures Low(g, of, k) < |groups|
    ensures Low(g, of, k) == High(g, of, k) ==>
              Filled(g, of, classes, PushInternal(groups, Low(g, of, k), k), k + 1, [], 0)
  {
  }

  /** One pair goes to one bucket. */
  method AddPair(g: Graph, of: seq<nat>, ghost classes: seq<seq<nat>>, k: nat,
                 groups: seq<Group>, slots: map<string, nat>, crossing: seq<Link>)
    returns (groups': seq<Group>, slots': map<string, nat>, crossing': seq<Link>)
    requires Filled(g, of, classes, groups, k, [], 0) && Crossed(g, of, |classes|, k, slots, crossing) && k < g.Size()
    ensures Filled(g, of, classes, groups', k + 1, [], 0) && Crossed(g, of, |classes|, k + 1, slots', crossing')
  {
    var a, b := of[g.left[k]], of[g.right[k]];
    FillInternal(g, of, classes, groups, k);
    if a == b {
      CrossSkip(g, of, |classes|, k, slots, crossing);
      groups', slots', crossing' := PushInternal(groups, a, k), slots, crossing;
    } else {
      groups' := groups;
      slots', crossing' := AddCrossing(g, of, |classes|, k, slots, crossing);
    }
  }

  /** One pass over the pairs fills the internal lists and the crossing map. */
  method SplitPairs(g: Graph, of: seq<nat>, classes: seq<seq<nat>>)
    returns (groups: seq<Group>, crossing: seq<Link>, ghost slots: map<string, nat>)
    requires Numbering(g, of, |classes|)
    ensures Filled(g, of, classes, groups, g.Size(), [], 0)
    ensures Crossed(g, of, |classes|, g.Size(), slots, crossing)
  {
    groups := seq(|classes|, i requires 0 <= i < |classes| => Group(i, classes[i], [], []));
    crossing := [];
    var found: map<string, nat> := map[];
    for edge := 0 to g.Size()
      invariant Filled(g, of, classes, groups, edge, [], 0)
      invariant Crossed(g, of, |classes|, edge, found, crossing)
    {
      groups, found, crossing := AddPair(g, of, classes, edge, groups, found, crossing);
    }
    slots := found;
  }

  // ----- crossing links in display order -----

  /** The links are exactly the non-empty crossings, ascending, with their pairs. */
  ghost predicate Complete(g: Graph, of: seq<nat>, n: nat, links: seq<Link>) {
    && Numbering(g, of, n) && Ascending(links) && Covers(g, of, links)
    && forall i :: 0 <= i < |links| ==>
         && links[i].b < n && links[i].key == Key(links[i].a, links[i].b)
         && links[i].indices == Between(g, of, links[i].a, links[i].b, g.Size()) && links[i].indices != []
  }

  lemma LinksCompare()
    ensures Comparison(LinkBefore)
  {
  }

  lemma SortedLinks(crossing: seq<Link>)
    requires Distinct(crossing)
    ensures Sorted(Sort(crossing, LinkBefore), LinkBefore) && Distinct(Sort(crossing, LinkBefore))
    ensures forall x :: x in crossing <==> x in Sort(crossing, LinkBefore)
  {
    LinksCompare();
    SortSorts(crossing, LinkBefore);
    SameItems(crossing, Sort(crossing, LinkBefore));
    DistinctPermutes(crossing, Sort(crossing, LinkBefore));
  }

  /** One link of a finished crossing map. */
  ghost predicate Finished(g: Graph, of: seq<nat>, n: nat, link: Link)
    requires Numbering(g, of, n)
  {
    && link.a < link.b < n && link.key == Key(link.a, link.b)
    && link.indices == Between(g, of, link.a, link.b, g.Size()) && link.indices != []
  }

  lemma AscendingLinks(g: Graph, of: seq<nat>, n: nat, links: seq<Link>)
    requires Numbering(g, of, n) && Sorted(links, LinkBefore) && Distinct(links)
    requires forall i :: 0 <= i < |links| ==> Finished(g, of, n, links[i])
    ensures Ascending(links)
  {
  }

  lemma CoveredLinks(g: Graph, of: seq<nat>, n: nat, slots: map<string, nat>, crossing: seq<Link>, links: seq<Link>)
    requires Crossed(g, of, n, g.Size(), slots, crossing)
    requires forall x :: x in crossing <==> x in links
    ensures Covers(g, of, links)
  {
    forall e {:trigger Low(g, of, e)} | 0 <= e < g.Size() && Low(g, of, e) != High(g, of, e)
      ensures HasLink(links, Low(g, of, e), High(g, of, e))
    {
      var link := crossing[slots[Key(Low(g, of, e), High(g, of, e))]];
      KeyInjective(link.a, link.b, Low(g, of, e), High(g, of, e));
      assert link in links;
    }
  }

  lemma SortingCompletes(g: Graph, of: seq<nat>, n: nat, slots: map<string, nat>, crossing: seq<Link>)
    requires Crossed(g, of, n, g.Size(), slots, crossing)
    ensures Complete(g, of, n, Sort(crossing, LinkBefore))
  {
    var links := Sort(crossing, LinkBefore);
    assert Distinct(crossing);
    SortedLinks(crossing);
    forall i | 0 <= i < |links| ensures Finished(g, of, n, links[i]) {
      assert links[i] in crossing;
    }
    AscendingLinks(g, of, n, links);
    CoveredLinks(g, of, n, slots, crossing, links);
  }

  method PushLinks(g: Graph, of: seq<nat>, classes: seq<seq<nat>>, start: seq<Group>, links: seq<Link>)
    returns (groups: seq<Group>)
    requires Filled(g, of, classes, start, g.Size(), [], 0) && Complete(g, of, |classes|, links)
    ensures Filled(g, of, classes, groups, g.Size(), links, |links|)
  {
    groups := start;
    for j := 0 to |links|
      invariant Filled(g, of, classes, groups, g.Size(), links, j)
    {
      var link := links[j];
      assert link.a < link.b < |groups|;
      groups := groups[link.a := groups[link.a].(links := groups[link.a].links + [link])];
      groups := groups[link.b := groups[link.b].(links := groups[link.b].links + [link])];
    }
  }

  // ----- the consistency guard -----

  function SumInternal(groups: seq<Group>, n: nat): nat
    requires n <= |groups|
  {
    if n == 0 then 0 else SumInternal(groups, n - 1) + |groups[n - 1].internal|
  }

  function SumExternal(links: seq<Link>, j: nat): nat
    requires j <= |links|
  {
    if j == 0 then 0 else SumExternal(links, j - 1) + |links[j - 1].indices|
  }

  function AllShown(n: nat): seq<bool> { seq(n, _ => true) }

  lemma {:induction false} AllAreShown(n: nat, k: nat)
    requires k <= n
    ensures Shown(AllShown(n), k) == k
  {
    if k > 0 {
      AllAreShown(n, k - 1);
    }
  }

  lemma {:induction false} CountAll(g: Graph, of: seq<nat>, a: nat, b: nat, k: nat)
    requires g.Valid() && |of| == g.order && k <= g.Size()
    ensures Count(g, of, a, b, AllShown(g.Size()), k) == |Between(g, of, a, b, k)|
  {
    if k > 0 {
      CountAll(g, of, a, b, k - 1);
    }
  }

  lemma {:induction false} SumInternalAll(g: Graph, of: seq<nat>, classes: seq<seq<nat>>, groups: seq<Group>,
                                          links: seq<Link>, n: nat)
    requires Filled(g, of, classes, groups, g.Size(), links, |links|) && n <= |groups|
    ensures SumInternal(groups, n) == SumInside(g, of, AllShown(g.Size()), n, g.Size())
  {
    if n > 0 {
      SumInternalAll(g, of, classes, groups, links, n - 1);
      CountAll(g, of, n - 1, n - 1, g.Size());
    }
  }

  lemma {:induction false} SumExternalAll(g: Graph, of: seq<nat>, n: nat, links: seq<Link>, j: nat)
    requires Complete(g, of, n, links) && j <= |links|
    ensures SumExternal(links, j) == SumCrossing(g, of, AllShown(g.Size()), links, j, g.Size())
  {
    if j > 0 {
      SumExternalAll(g, of, n, links, j - 1);
      CountAll(g, of, links[j - 1].a, links[j - 1].b, g.Size());
    }
  }

  /** The guard's sum is the number of pairs, so the guard never fires. */
  lemma CountersAgree(g: Graph, of: seq<nat>, classes: seq<seq<nat>>, groups: seq<Group>, links: seq<Link>)
    requires Filled(g, of, classes, groups, g.Size(), links, |links|) && Complete(g, of, |classes|, links)
    ensures SumInternal(groups, |groups|) + SumExternal(links, |links|) == g.Size()
  {
    SumInternalAll(g, of, classes, groups, links, |groups|);
    SumExternalAll(g, of, |classes|, links, |links|);
    BucketsAddUp(g, of, |classes|, links, AllShown(g.Size()));
    AllAreShown(g.Size(), g.Size());
  }

  lemma {:induction false} AllInside(g: Graph, of: seq<nat>)
    requires g.Valid() && |of| == g.order
    ensures ShownInside(g, of, AllShown(g.Size()), g.Size())
            == |set e: nat | e < g.Size() && of[g.left[e]] == of[g.right[e]]|
  {
    var matches := AllShown(g.Size());
    InsideIsSize(g, of, matches, g.Size());
    assert (set e: nat | e < g.Size() && matches[e] && of[g.left[e]] == of[g.right[e]])
        == set e: nat | e < g.Size() && of[g.left[e]] == of[g.right[e]];
  }

  /** The length of a bucket is the number of pairs with one end in each of its groups. */
  lemma BetweenIsSize(g: Graph, of: seq<nat>, a: nat, b: nat)
    requires g.Valid() && |of| == g.order && a <= b
    ensures |Between(g, of, a, b, g.Size())|
            == |set e: nat | e < g.Size() && {of[g.left[e]], of[g.right[e]]} == {a, b}|
  {
    var matches := AllShown(g.Size());
    CountAll(g, of, a, b, g.Size());
    CountIsSize(g, of, a, b, matches, g.Size());
    assert (set e: nat | e < g.Size() && matches[e] && {of[g.left[e]], of[g.right[e]]} == {a, b})
        == set e: nat | e < g.Size() && {of[g.left[e]], of[g.right[e]]} == {a, b};
  }

  // ----- the whole index -----

  /** The index partitions the wallets into the label classes and the pairs into the buckets of
      their groups; `classes` lists the members. */
  ghost predicate Partitions(g: Graph, m: Labels, index: Index, classes: seq<seq<nat>>) {
    && Classes(m, classes) && Numbered(m, classes, index.groupOf)
    && Filled(g, index.groupOf, classes, index.groups, g.Size(), index.links, |index.links|)
    && Complete(g, index.groupOf, |classes|, index.links)
    && index.internal == SumInternal(index.groups, |index.groups|)
    && index.external == SumExternal(index.links, |index.links|)
  }

  method BuildIndex(g: Graph, m: Labels) returns (index: Index, thrown: bool, ghost classes: seq<seq<nat>>)
    requires Labelling(g, m)
    ensures !thrown && Partitions(g, m, index, classes)
    ensures index.internal + index.external == g.Size()
  {
    var buckets := Bucket(m);
    var groupOf := Number(m, buckets);
    var groups, crossing, slots := SplitPairs(g, groupOf, buckets);
    SortingCompletes(g, groupOf, |buckets|, slots, crossing);
    var links := Sort(crossing, LinkBefore);
    groups := PushLinks(g, groupOf, buckets, groups, links);
    var internal, external := 0, 0;
    for i := 0 to |groups|
      invariant internal == SumInternal(groups, i)
    {
      internal := internal + |groups[i].internal|;
    }
    for j := 0 to |links|
      invariant external == SumExternal(links, j)
    {
      external := external + |links[j].indices|;
    }
    CountersAgree(g, groupOf, buckets, groups, links);
    index := Index(groups, groupOf, links, internal, external);
    thrown := internal + external != g.Size();
    classes := buckets;
  }

  /** The two counters count the pairs whose ends have the same group number, and the others. */
  lemma CountersCount(g: Graph, m: Labels, index: Index, classes: seq<seq<nat>>)
    requires Labelling(g, m) && Partitions(g, m, index, classes)
    ensures var of := index.groupOf;
            && index.internal == |set e: nat | e < g.Size() && of[g.left[e]] == of[g.right[e]]|
            && index.external == g.Size() - index.internal
  {
    var of := index.groupOf;
    CountersAgree(g, of, classes, index.groups, index.links);
    SumInternalAll(g, of, classes, index.groups, index.links, |index.groups|);
    InsideAddsUp(g, of, AllShown(g.Size()), |classes|, g.Size());
    AllInside(g, of);
  }

  /** Every pair index is in exactly one bucket: one internal list, or one link's list. */
  lemma PairInOneBucket(g: Graph, m: Labels, index: Index, classes: seq<seq<nat>>, e: nat)
    requires Labelling(g, m) && Partitions(g, m, index, classes) && e < g.Size()
    ensures var a, b := index.groupOf[g.left[e]], index.groupOf[g.right[e]];
            && (forall i :: 0 <= i < |index.groups| ==> (e in index.groups[i].internal <==> a == b == i))
            && (forall j :: 0 <= j < |index.links| ==>
                  (e in index.links[j].indices <==> {a, b} == {index.links[j].a, index.links[j].b}))
            && (a != b ==> exists j :: 0 <= j < |index.links| && {a, b} == {index.links[j].a, index.links[j].b})
  {
    var of := index.groupOf;
    BetweenHolds(g, of, g.Size(), e);
    forall i | 0 <= i < |index.groups|
      ensures e in index.groups[i].internal <==> Low(g, of, e) == i && High(g, of, e) == i
    {
      BetweenExact(g, of, i, i, g.Size());
    }
    forall j | 0 <= j < |index.links|
      ensures e in index.links[j].indices
              <==> {of[g.left[e]], of[g.right[e]]} == {index.links[j].a, index.links[j].b}
    {
      BetweenExact(g, of, index.links[j].a, index.links[j].b, g.Size());
      LowHigh(g, of, index.links[j].a, index.links[j].b, e);
    }
    if of[g.left[e]] != of[g.right[e]] {
      LowHigh(g, of, Low(g, of, e), High(g, of, e), e);
      assert HasLink(index.links, Low(g, of, e), High(g, of, e));
      var j :| 0 <= j < |index.links| && index.links[j].a == Low(g, of, e) && index.links[j].b == High(g, of, e);
      assert {of[g.left[e]], of[g.right[e]]} == {index.links[j].a, index.links[j].b};
    }
  }

  lemma {:induction false} LinksOfExact(links: seq<Link>, i: nat, j: nat, k: nat)
    requires k < j <= |links|
    ensures links[k] in LinksOf(links, i, j) <==> links[k].a == i || links[k].b == i
  {
    if k == j - 1 {
      LinksOfOnly(links, i, j);
    } else {
      LinksOfExact(links, i, j - 1, k);
      LinksOfOnly(links, i, j);
    }
  }

  lemma {:induction false} LinksOfOnly(links: seq<Link>, i: nat, j: nat)
    requires j <= |links|
    ensures forall x :: x in LinksOf(links, i, j) ==> x.a == i || x.b == i
  {
    if j > 0 {
      LinksOfOnly(links, i, j - 1);
    }
  }

  lemma {:induction false} LinksOfListed(links: seq<Link>, i: nat, j: nat, x: Link)
    requires j <= |links| && x in LinksOf(links, i, j)
    ensures x in links[..j]
  {
    assert links[..j] == links[..j - 1] + [links[j - 1]];
    if x in LinksOf(links, i, j - 1) {
      LinksOfListed(links, i, j - 1, x);
    }
  }

  /** A group lists its links in the order of all links. */
  lemma {:induction false} LinksOfAscend(links: seq<Link>, i: nat, j: nat, p: nat, q: nat)
    requires Ascending(links) && j <= |links| && p < q < |LinksOf(links, i, j)|
    ensures var x, y := LinksOf(links, i, j)[p], LinksOf(links, i, j)[q];
            x.a < y.a || (x.a == y.a && x.b < y.b)
  {
    var before := LinksOf(links, i, j - 1);
    if q < |before| {
      LinksOfAscend(links, i, j - 1, p, q);
    } else {
      LinksOfListed(links, i, j - 1, before[p]);
      var k :| 0 <= k < j - 1 && links[..j - 1][k] == before[p];
      assert LinkBefore(links[k], links[j - 1]);
    }
  }

  /** Each link is listed by exactly its two groups. */
  lemma LinkInTwoGroups(g: Graph, m: Labels, index: Index, classes: seq<seq<nat>>, k: nat, i: nat)
    requires Partitions(g, m, index, classes) && k < |index.links| && i < |index.groups|
    ensures index.links[k] in index.groups[i].links <==> i == index.links[k].a || i == index.links[k].b
    ensures index.links[k].a < index.links[k].b < |index.groups|
  {
    LinksOfExact(index.links, i, |index.links|, k);
  }

  /** Links come by their lower group and then by their higher one, and a key prints both. */
  lemma LinksInOrder(g: Graph, m: Labels, index: Index, classes: seq<seq<nat>>, i: nat, j: nat)
    requires Partitions(g, m, index, classes) && i < j < |index.links|
    ensures var x, y := index.links[i], index.links[j];
            && x.a < x.b && (x.a < y.a || (x.a == y.a && x.b < y.b))
            && x.key == Print(x.a) + ":" + Print(x.b) && y.key == Print(y.a) + ":" + Print(y.b)
  {
    assert LinkBefore(index.links[i], index.links[j]);
  }

  /** Group numbers rename the labels, and groups come larger first, then by first wallet. */
  lemma GroupsAreLabels(g: Graph, m: Labels, index: Index, classes: seq<seq<nat>>, u: nat, v: nat, i: nat, j: nat)
    requires Labelling(g, m) && Partitions(g, m, index, classes)
    requires u < g.order && v < g.order && i < j < |index.groups|
    ensures index.groupOf[u] == index.groupOf[v] <==> m[u] == m[v]
    ensures v in index.groups[i].members <==> index.groupOf[v] == i
    ensures index.groups[i].id == i
    ensures var x, y := index.groups[i].members, index.groups[j].members;
            x != [] && y != [] && (|x| > |y| || (|x| == |y| && x[0] < y[0]))
  {
    NumbersAgree(m, classes, index.groupOf, u, v, i);
  }
}
