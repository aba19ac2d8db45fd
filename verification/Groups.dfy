/** Display groups: wallets bucketed by label and numbered size-first, pairs bucketed by the groups
    of their ends. */
module Groups {
  import opened PairGraph
  import opened Modularity
  import opened Ordering

  /** The pairs that cross between groups `a` and `b`. */
  datatype Link = Link(key: string, a: nat, b: nat, indices: seq<nat>)

  datatype Group = Group(id: nat, members: seq<nat>, internal: seq<nat>, links: seq<Link>)

  // ----- buckets of wallets -----

  /** The wallets below `k` that carry label `c`, in ascending order. */
  function Members(m: Labels, c: nat, k: nat): seq<nat>
    requires k <= |m|
  {
    if k == 0 then []
    else Members(m, c, k - 1) + if m[k - 1] == c then [k - 1] else []
  }

  lemma {:induction false} MembersAscend(m: Labels, c: nat, k: nat)
    requires k <= |m|
    ensures forall i :: 0 <= i < |Members(m, c, k)| ==> Members(m, c, k)[i] < k && m[Members(m, c, k)[i]] == c
    ensures forall i, j :: 0 <= i < j < |Members(m, c, k)| ==> Members(m, c, k)[i] < Members(m, c, k)[j]
  {
    if k > 0 {
      MembersAscend(m, c, k - 1);
    }
  }

  lemma {:induction false} MembersHold(m: Labels, c: nat, k: nat, v: nat)
    requires v < k <= |m| && m[v] == c
    ensures v in Members(m, c, k)
  {
    if v < k - 1 {
      MembersHold(m, c, k - 1, v);
    }
  }

  /** Larger groups first, then the group with the smaller first wallet. */
  predicate Before(x: seq<nat>, y: seq<nat>) {
    |x| > |y| || (|x| == |y| && x != [] && y != [] && x[0] < y[0])
  }

  lemma BeforeCompares()
    ensures Comparison(Before)
  {
  }

  /** A whole label class, named by its first wallet. */
  ghost predicate Class(m: Labels, vs: seq<nat>) {
    vs != [] && vs[0] < |m| && vs == Members(m, m[vs[0]], |m|)
  }

  ghost predicate Placed(classes: seq<seq<nat>>, v: nat) {
    exists i :: 0 <= i < |classes| && v in classes[i]
  }

  /** The buckets are the label classes, each once, in display order. */
  ghost predicate Classes(m: Labels, classes: seq<seq<nat>>) {
    && (forall i :: 0 <= i < |classes| ==> Class(m, classes[i]))
    && (forall i, j :: 0 <= i < j < |classes| ==> Before(classes[i], classes[j]))
    && (forall v :: 0 <= v < |m| ==> Placed(classes, v))
  }

  /** The buckets after the first `k` wallets: `slots` finds the bucket of a label, and `names`
      lists the labels in the order in which they first appeared. */
  ghost predicate Bucketed(m: Labels, k: nat, names: seq<nat>, slots: map<nat, nat>, buckets: seq<seq<nat>>) {
    && k <= |m| && |names| == |buckets|
    && (forall i :: 0 <= i < |names| ==> names[i] in slots && slots[names[i]] == i)
    && (forall c :: c in slots ==> slots[c] < |names| && names[slots[c]] == c)
    && (forall i :: 0 <= i < |names| ==> buckets[i] == Members(m, names[i], k) && buckets[i] != [])
    && (forall v :: 0 <= v < k ==> m[v] in slots)
  }

  lemma BucketPush(m: Labels, k: nat, names: seq<nat>, slots: map<nat, nat>, buckets: seq<seq<nat>>)
    requires k < |m| && Bucketed(m, k, names, slots, buckets) && m[k] in slots
    ensures Bucketed(m, k + 1, names, slots, buckets[slots[m[k]] := buckets[slots[m[k]]] + [k]])
  {
  }

  lemma BucketNew(m: Labels, k: nat, names: seq<nat>, slots: map<nat, nat>, buckets: seq<seq<nat>>)
    requires k < |m| && Bucketed(m, k, names, slots, buckets) && m[k] !in slots
    ensures Bucketed(m, k + 1, names + [m[k]], slots[m[k] := |buckets|], buckets + [[k]])
  {
    NoMembers(m, m[k], k);
  }

  lemma {:induction false} NoMembers(m: Labels, c: nat, k: nat)
    requires k <= |m| && forall v :: 0 <= v < k ==> m[v] != c
    ensures Members(m, c, k) == []
  {
    if k > 0 {
      NoMembers(m, c, k - 1);
    }
  }

  method Bucket(m: Labels) returns (classes: seq<seq<nat>>)
    ensures Classes(m, classes)
  {
    var slots: map<nat, nat>, buckets: seq<seq<nat>> := map[], [];
    ghost var names: seq<nat> := [];
    for node := 0 to |m|
      invariant Bucketed(m, node, names, slots, buckets)
    {
      var group := m[node];
      if group !in slots {
        BucketNew(m, node, names, slots, buckets);
        slots, buckets, names := slots[group := |buckets|], buckets + [[node]], names + [group];
      } else {
        BucketPush(m, node, names, slots, buckets);
        buckets := buckets[slots[group] := buckets[slots[group]] + [node]];
      }
    }
    BucketsAreClasses(m, names, slots, buckets);
    ClassesSort(m, buckets);
    classes := Sort(buckets, Before);
  }

  lemma BucketsAreClasses(m: Labels, names: seq<nat>, slots: map<nat, nat>, buckets: seq<seq<nat>>)
    requires Bucketed(m, |m|, names, slots, buckets)
    ensures forall i :: 0 <= i < |buckets| ==> Class(m, buckets[i])
    ensures Distinct(buckets)
    ensures forall v :: 0 <= v < |m| ==> Placed(buckets, v)
  {
    forall i | 0 <= i < |buckets| ensures Class(m, buckets[i]) && m[buckets[i][0]] == names[i] {
      MembersAscend(m, names[i], |m|);
    }
    forall v | 0 <= v < |m| ensures Placed(buckets, v) {
      MembersHold(m, m[v], |m|, v);
      assert v in buckets[slots[m[v]]];
    }
  }

  lemma StrictlyBefore(m: Labels, classes: seq<seq<nat>>)
    requires forall i :: 0 <= i < |classes| ==> Class(m, classes[i])
    requires Sorted(classes, Before) && Distinct(classes)
    ensures forall i, j :: 0 <= i < j < |classes| ==> Before(classes[i], classes[j])
  {
  }

  lemma SortsBefore(buckets: seq<seq<nat>>)
    requires Distinct(buckets)
    ensures Sorted(Sort(buckets, Before), Before) && Distinct(Sort(buckets, Before))
    ensures forall x :: x in buckets <==> x in Sort(buckets, Before)
  {
    BeforeCompares();
    SortSorts(buckets, Before);
    SameItems(buckets, Sort(buckets, Before));
    DistinctPermutes(buckets, Sort(buckets, Before));
  }

  lemma SortKeepsClasses(m: Labels, buckets: seq<seq<nat>>, classes: seq<seq<nat>>)
    requires forall x :: x in buckets <==> x in classes
    requires forall i :: 0 <= i < |buckets| ==> Class(m, buckets[i])
    ensures forall i :: 0 <= i < |classes| ==> Class(m, classes[i])
  {
    forall i | 0 <= i < |classes| ensures Class(m, classes[i]) {
      assert classes[i] in buckets;
    }
  }

  lemma SortKeepsPlaced(buckets: seq<seq<nat>>, classes: seq<seq<nat>>, v: nat)
    requires forall x :: x in buckets <==> x in classes
    requires Placed(buckets, v)
    ensures Placed(classes, v)
  {
    var i :| 0 <= i < |buckets| && v in buckets[i];
    assert buckets[i] in classes;
  }

  lemma ClassesSort(m: Labels, buckets: seq<seq<nat>>)
    requires (forall i :: 0 <= i < |buckets| ==> Class(m, buckets[i])) && Distinct(buckets)
    requires forall v :: 0 <= v < |m| ==> Placed(buckets, v)
    ensures Classes(m, Sort(buckets, Before))
  {
    var classes := Sort(buckets, Before);
    SortsBefore(buckets);
    SortKeepsClasses(m, buckets, classes);
    StrictlyBefore(m, classes);
    forall v | 0 <= v < |m| ensures Placed(classes, v) {
      SortKeepsPlaced(buckets, classes, v);
    }
  }

  // ----- group numbers -----

  /** Group numbers are positions in the list of classes. */
  ghost predicate Numbered(m: Labels, classes: seq<seq<nat>>, groupOf: seq<nat>) {
    && |groupOf| == |m|
    && (forall v {:trigger groupOf[v]} :: 0 <= v < |m| ==> groupOf[v] < |classes| && v in classes[groupOf[v]])
  }

  lemma ClassLabel(m: Labels, vs: seq<nat>, v: nat)
    requires Class(m, vs) && v in vs
    ensures v < |m| && m[v] == m[vs[0]]
  {
    MembersAscend(m, m[vs[0]], |m|);
  }

  /** A wallet stands in one class only. */
  lemma OneClass(m: Labels, classes: seq<seq<nat>>, i: nat, j: nat, v: nat)
    requires Classes(m, classes) && i < |classes| && j < |classes| && v in classes[i] && v in classes[j]
    ensures i == j
  {
    ClassLabel(m, classes[i], v);
    ClassLabel(m, classes[j], v);
    assert Class(m, classes[i]) && Class(m, classes[j]);
    assert classes[i] == classes[j];
    assert i < j ==> Before(classes[i], classes[j]);
    assert j < i ==> Before(classes[j], classes[i]);
  }

  /** Group numbers agree with the labels up to renaming, and each group holds its own wallets. */
  lemma NumbersAgree(m: Labels, classes: seq<seq<nat>>, groupOf: seq<nat>, u: nat, v: nat, i: nat)
    requires Classes(m, classes) && Numbered(m, classes, groupOf) && u < |m| && v < |m| && i < |classes|
    ensures groupOf[u] == groupOf[v] <==> m[u] == m[v]
    ensures groupOf[v] == i <==> v in classes[i]
  {
    var a, b := groupOf[u], groupOf[v];
    ClassLabel(m, classes[a], u);
    ClassLabel(m, classes[b], v);
    if m[u] == m[v] {
      assert Class(m, classes[a]) && Class(m, classes[b]);
      assert classes[a] == classes[b];
      OneClass(m, classes, a, b, u);
    }
    if v in classes[i] {
      OneClass(m, classes, i, b, v);
    }
  }

  method Assign(groupOf: array<nat>, members: seq<nat>, id: nat)
    requires forall j :: 0 <= j < |members| ==> members[j] < groupOf.Length
    modifies groupOf
    ensures forall v :: 0 <= v < groupOf.Length ==> groupOf[v] == if v in members then id else old(groupOf[v])
  {
    for j := 0 to |members|
      invariant forall v :: 0 <= v < groupOf.Length ==> groupOf[v] == if v in members[..j] then id else old(groupOf[v])
    {
      groupOf[members[j]] := id;
    }
    assert members[..|members|] == members;
  }

  method Number(m: Labels, classes: seq<seq<nat>>) returns (groupOf: seq<nat>)
    requires Classes(m, classes)
    ensures Numbered(m, classes, groupOf)
  {
    var numbers := new nat[|m|](_ => 0);
    for id := 0 to |classes|
      invariant forall i, v :: 0 <= i < id && 0 <= v < |m| && v in classes[i] ==> numbers[v] == i
    {
      forall j | 0 <= j < |classes[id]| ensures classes[id][j] < |m| {
        ClassLabel(m, classes[id], classes[id][j]);
      }
      forall i, v | 0 <= i < id && 0 <= v < |m| && v in classes[i] ensures v !in classes[id] {
        if v in classes[id] {
          OneClass(m, classes, i, id, v);
        }
      }
      Assign(numbers, classes[id], id);
    }
    groupOf := numbers[..];
    forall v {:trigger groupOf[v]} | 0 <= v < |m| ensures groupOf[v] < |classes| && v in classes[groupOf[v]] {
      assert Placed(classes, v);
    }
  }

  // ----- buckets of pairs -----

  /** Every wallet of the graph has a group number below `n`. */
  ghost predicate Numbering(g: Graph, of: seq<nat>, n: nat) {
    g.Valid() && |of| == g.order && forall v :: 0 <= v < g.order ==> of[v] < n
  }

  function Low(g: Graph, of: seq<nat>, e: nat): nat
    requires g.Valid() && |of| == g.order && e < g.Size()
  {
    var a, b := of[g.left[e]], of[g.right[e]];
    if a < b then a else b
  }

  function High(g: Graph, of: seq<nat>, e: nat): nat
    requires g.Valid() && |of| == g.order && e < g.Size()
  {
    var a, b := of[g.left[e]], of[g.right[e]];
    if a < b then b else a
  }

  /** The pairs below `k` whose ends lie in groups `a` and `b`, in ascending order; `a == b` gives
      the pairs inside one group. */
  function Between(g: Graph, of: seq<nat>, a: nat, b: nat, k: nat): seq<nat>
    requires g.Valid() && |of| == g.order && k <= g.Size()
  {
    if k == 0 then []
    else
      var es := Between(g, of, a, b, k - 1);
      if Low(g, of, k - 1) == a && High(g, of, k - 1) == b then es + [k - 1] else es
  }

  lemma {:induction false} BetweenExact(g: Graph, of: seq<nat>, a: nat, b: nat, k: nat)
    requires g.Valid() && |of| == g.order && k <= g.Size()
    ensures forall i :: 0 <= i < |Between(g, of, a, b, k)| ==>
              var e := Between(g, of, a, b, k)[i]; e < k && Low(g, of, e) == a && High(g, of, e) == b
    ensures forall i, j :: 0 <= i < j < |Between(g, of, a, b, k)| ==>
              Between(g, of, a, b, k)[i] < Between(g, of, a, b, k)[j]
  {
    if k > 0 {
      BetweenExact(g, of, a, b, k - 1);
    }
  }

  lemma {:induction false} BetweenHolds(g: Graph, of: seq<nat>, k: nat, e: nat)
    requires g.Valid() && |of| == g.order && e < k <= g.Size()
    ensures e in Between(g, of, Low(g, of, e), High(g, of, e), k)
  {
    if e < k - 1 {
      BetweenHolds(g, of, k - 1, e);
    }
  }
}
