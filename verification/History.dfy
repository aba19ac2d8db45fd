/** Export of selected runs: indexing their artifacts after all inputs, and walking published lineage. */
module History {
  import opened DependencyGraph
  import opened Ordering

  const MAX_ARTIFACTS: nat := 512

  // ----- reachability -----

  /** A walk along inputs leads from one of the roots to `n`. */
  ghost predicate Reachable(g: Digraph, roots: set<string>, n: string) {
    exists p :: LeadsTo(g, roots, p, n)
  }

  ghost predicate LeadsTo(g: Digraph, roots: set<string>, p: seq<string>, n: string) {
    |p| > 0 && p[0] in roots && p[|p| - 1] == n && Walk(g, p)
  }

  lemma RootReachable(g: Digraph, roots: set<string>, n: string)
    requires n in roots
    ensures Reachable(g, roots, n)
  {
    assert LeadsTo(g, roots, [n], n);
  }

  lemma InputReachable(g: Digraph, roots: set<string>, n: string, d: string)
    requires Reachable(g, roots, n) && Depends(g, n, d)
    ensures Reachable(g, roots, d)
  {
    var p :| LeadsTo(g, roots, p, n);
    WalkExtend(g, p, d);
    assert LeadsTo(g, roots, p + [d], d);
  }

  lemma MoreRoots(g: Digraph, roots: set<string>, more: set<string>, n: string)
    requires roots <= more && Reachable(g, roots, n)
    ensures Reachable(g, more, n)
  {
    var p :| LeadsTo(g, roots, p, n);
    assert LeadsTo(g, more, p, n);
  }

  /** Some cycle can be reached. */
  ghost predicate CycleReached(g: Digraph, roots: set<string>) {
    exists p :: |p| >= 2 && Walk(g, p) && p[0] == p[|p| - 1] && Reachable(g, roots, p[0])
  }

  /** A set that holds the roots and every input of its members holds all that is reachable. */
  lemma {:induction false} ClosedHoldsReachable(g: Digraph, roots: set<string>, s: set<string>, p: seq<string>)
    requires roots <= s && forall n, d :: n in s && Depends(g, n, d) ==> d in s
    requires |p| > 0 && p[0] in roots && Walk(g, p)
    ensures p[|p| - 1] in s
    decreases |p|
  {
    if |p| > 1 {
      var q := p[..|p| - 1];
      forall i | 0 <= i < |q| - 1 ensures Step(g, q, i) {
        assert Step(g, p, i);
      }
      ClosedHoldsReachable(g, roots, s, q);
      assert Step(g, p, |p| - 2);
    }
  }

  // ----- the indexer -----

  /** Every input of the artifact at position `i` is committed before it or leads back to it. */
  ghost predicate AfterInputs(g: Digraph, committed: seq<string>, i: nat)
    requires i < |committed|
  {
    committed[i] in g && forall d :: d in g[committed[i]] ==> d in committed[..i] || Reachable(g, {d}, committed[i])
  }

  ghost predicate InputsFirst(g: Digraph, committed: seq<string>) {
    forall i :: 0 <= i < |committed| ==> AfterInputs(g, committed, i)
  }

  lemma InputsFirstAppend(g: Digraph, committed: seq<string>, id: string)
    requires InputsFirst(g, committed) && id in g
    requires forall d :: d in g[id] ==> d in committed || Reachable(g, {d}, id)
    ensures InputsFirst(g, committed + [id])
  {
    var all := committed + [id];
    forall i | 0 <= i < |all| ensures AfterInputs(g, all, i) {
      assert all[..i] == committed[..i];
      if i < |committed| {
        assert AfterInputs(g, committed, i);
      } else {
        assert committed[..i] == committed;
      }
    }
  }

  /** The indexer between two steps: `stack` is the chain of open calls, `roots` are the runs indexed
      so far and `all` the runs of the whole selection. */
  ghost predicate State(g: Digraph, roots: set<string>, all: set<string>, stack: seq<string>,
                        indexed: set<string>, committed: seq<string>) {
    && |indexed| <= MAX_ARTIFACTS && indexed <= g.Keys && roots <= all
    && (forall n :: n in indexed ==> Reachable(g, roots, n))
    && (forall n :: n in indexed <==> n in committed || n in stack)
    && (forall n :: n in stack ==> n !in committed)
    && Distinct(committed)
    && (forall n, d :: n in committed && Depends(g, n, d) ==> d in indexed)
    && Walk(g, stack)
    && InputsFirst(g, committed)
    && (!CycleReached(g, all) ==> Topological(g, committed))
  }

  /** What makes indexing impossible: a missing artifact, or too many of them. */
  ghost predicate Impossible(g: Digraph, roots: set<string>) {
    || (exists n :: Reachable(g, roots, n) && n !in g)
    || exists s: set<string> :: |s| > MAX_ARTIFACTS && forall n :: n in s ==> Reachable(g, roots, n)
  }

  lemma OpenArtifact(g: Digraph, roots: set<string>, all: set<string>, stack: seq<string>, indexed: set<string>,
                     committed: seq<string>, id: string)
    requires State(g, roots, all, stack, indexed, committed) && Reachable(g, roots, id) && id in g && id !in indexed
    requires stack != [] ==> Depends(g, stack[|stack| - 1], id)
    requires |indexed| < MAX_ARTIFACTS
    ensures State(g, roots, all, stack + [id], indexed + {id}, committed)
  {
    WalkExtend(g, stack, id);
  }

  /** An input that is still open closes a cycle. */
  lemma OpenInputIsCycle(g: Digraph, id: string, roots: set<string>, all: set<string>, stack: seq<string>, d: string)
    requires id in g && Walk(g, stack + [id]) && d in g[id]
    requires d in stack + [id] && roots <= all && Reachable(g, roots, d)
    ensures CycleReached(g, all)
  {
    var open := stack + [id];
    WalkExtend(g, open, d);
    var j :| 0 <= j < |open| && open[j] == d;
    var walk := open + [d];
    var q := walk[j..];
    forall i | 0 <= i < |q| - 1 ensures Step(g, q, i) {
      assert Step(g, walk, i + j);
    }
    MoreRoots(g, roots, all, d);
    assert |q| >= 2 && Walk(g, q) && q[0] == q[|q| - 1] && Reachable(g, all, q[0]);
  }

  /** An open artifact leads to the one opened last. */
  lemma OpenLeadsToTop(g: Digraph, open: seq<string>, d: string)
    requires open != [] && Walk(g, open) && d in open
    ensures Reachable(g, {d}, open[|open| - 1])
  {
    var j :| 0 <= j < |open| && open[j] == d;
    var q := open[j..];
    forall i | 0 <= i < |q| - 1 ensures Step(g, q, i) {
      assert Step(g, open, i + j);
    }
    assert LeadsTo(g, {d}, q, open[|open| - 1]);
  }

  lemma WalkShrinks(g: Digraph, stack: seq<string>, id: string)
    requires Walk(g, stack + [id])
    ensures Walk(g, stack)
  {
    forall i | 0 <= i < |stack| - 1 ensures Step(g, stack, i) {
      assert Step(g, stack + [id], i);
    }
  }

  /** Without reachable cycles, the inputs of a finished artifact are all committed before it. */
  lemma CommitArtifact(g: Digraph, roots: set<string>, all: set<string>, stack: seq<string>, indexed: set<string>,
                       committed: seq<string>, id: string)
    requires State(g, roots, all, stack + [id], indexed, committed) && id in g && id !in stack
    requires forall d :: d in g[id] ==> d in indexed
    ensures State(g, roots, all, stack, indexed, committed + [id])
  {
    DistinctAppend(committed, id);
    WalkShrinks(g, stack, id);
    forall d | d in g[id] ensures d in committed || Reachable(g, {d}, id) {
      if d !in committed {
        OpenLeadsToTop(g, stack + [id], d);
      }
    }
    InputsFirstAppend(g, committed, id);
    if !CycleReached(g, all) {
      forall d | d in g[id] ensures d in committed {
        if d !in committed {
          OpenInputIsCycle(g, id, roots, all, stack, d);
        }
      }
      TopologicalAppend(g, committed, id);
    }
  }

  lemma TooMany(g: Digraph, roots: set<string>, indexed: set<string>, id: string)
    requires (forall n :: n in indexed ==> Reachable(g, roots, n)) && Reachable(g, roots, id) && id !in indexed
    requires |indexed| >= MAX_ARTIFACTS
    ensures Impossible(g, roots)
  {
    var s := indexed + {id};
    assert |s| > MAX_ARTIFACTS;
  }

  /** The set of indexed identities and the order of catalogue commits. */
  class Indexer {
    var indexed: set<string>
    ghost var committed: seq<string>

    constructor ()
      ensures indexed == {} && committed == []
    {
      indexed, committed := {}, [];
    }

    ghost predicate Valid(g: Digraph, roots: set<string>, all: set<string>, stack: seq<string>)
      reads this
    {
      State(g, roots, all, stack, indexed, committed)
    }

    /** `index(identity)`; `returned` tells whether a manifest is returned. */
    method Index(g: Digraph, id: string, ghost roots: set<string>, ghost all: set<string>, ghost stack: seq<string>)
      returns (ok: bool, returned: bool)
      requires Valid(g, roots, all, stack) && Reachable(g, roots, id)
      requires stack != [] ==> Depends(g, stack[|stack| - 1], id)
      modifies this
      ensures ok ==> Valid(g, roots, all, stack) && old(indexed) <= indexed && id in indexed
      ensures ok ==> (returned <==> id !in old(indexed))
      ensures !ok ==> Impossible(g, roots)
      decreases MAX_ARTIFACTS - |indexed|, 0
    {
      if id in indexed {
        return true, false;
      }
      if |indexed| >= MAX_ARTIFACTS {
        TooMany(g, roots, indexed, id);
        return false, false;
      }
      if id !in g {
        return false, false;
      }
      OpenArtifact(g, roots, all, stack, indexed, committed, id);
      indexed := indexed + {id};
      ok := IndexInputs(g, id, roots, all, stack + [id]);
      if !ok {
        return false, false;
      }
      CommitArtifact(g, roots, all, stack, indexed, committed, id);
      committed := committed + [id];
      returned := true;
    }

    /** The loop over the inputs of an open artifact. */
    method IndexInputs(g: Digraph, id: string, ghost roots: set<string>, ghost all: set<string>,
                       ghost stack: seq<string>)
      returns (ok: bool)
      requires Valid(g, roots, all, stack) && id in g && stack != [] && stack[|stack| - 1] == id
      modifies this
      ensures ok ==> Valid(g, roots, all, stack) && old(indexed) <= indexed && forall d :: d in g[id] ==> d in indexed
      ensures !ok ==> Impossible(g, roots)
      decreases MAX_ARTIFACTS - |indexed|, 1
    {
      for i := 0 to |g[id]|
        invariant Valid(g, roots, all, stack) && old(indexed) <= indexed
        invariant forall j :: 0 <= j < i ==> g[id][j] in indexed
      {
        var d := g[id][i];
        assert id in indexed && Depends(g, id, d);
        InputReachable(g, roots, id, d);
        SubsetSize(old(indexed), indexed);
        var returned;
        ok, returned := Index(g, d, roots, all, stack);
        if !ok {
          return;
        }
      }
      ok := true;
    }
  }

  // ----- the selected runs -----

  ghost function First(runs: seq<string>, k: nat): set<string>
    requires k <= |runs|
  {
    set r | r in runs[..k]
  }

  lemma StateMoreRoots(g: Digraph, roots: set<string>, more: set<string>, all: set<string>, indexed: set<string>,
                       committed: seq<string>)
    requires State(g, roots, all, [], indexed, committed) && roots <= more <= all
    ensures State(g, more, all, [], indexed, committed)
  {
    forall n | n in indexed ensures Reachable(g, more, n) {
      MoreRoots(g, roots, more, n);
    }
  }

  lemma ImpossibleMoreRoots(g: Digraph, roots: set<string>, more: set<string>)
    requires Impossible(g, roots) && roots <= more
    ensures Impossible(g, more)
  {
    forall n | Reachable(g, roots, n) ensures Reachable(g, more, n) {
      MoreRoots(g, roots, more, n);
    }
  }

  /** When no call is open, the indexed artifacts are exactly the reachable ones. */
  lemma IndexedIsReachable(g: Digraph, roots: set<string>, all: set<string>, indexed: set<string>,
                           committed: seq<string>, n: string)
    requires State(g, roots, all, [], indexed, committed) && roots <= indexed
    ensures n in indexed <==> Reachable(g, roots, n)
  {
    if Reachable(g, roots, n) {
      var p :| LeadsTo(g, roots, p, n);
      ClosedHoldsReachable(g, roots, indexed, p);
    }
  }

  lemma NotImpossible(g: Digraph, roots: set<string>, all: set<string>, indexed: set<string>, committed: seq<string>)
    requires State(g, roots, all, [], indexed, committed) && roots <= indexed
    ensures !Impossible(g, roots)
  {
    forall n | Reachable(g, roots, n) ensures n in indexed {
      IndexedIsReachable(g, roots, all, indexed, committed, n);
    }
    forall s: set<string> | forall n :: n in s ==> Reachable(g, roots, n) ensures |s| <= MAX_ARTIFACTS {
      assert s <= indexed;
      SubsetSize(s, indexed);
    }
  }

  /** A topological commit order rules out every reachable cycle. */
  lemma OrderedReachesNoCycle(g: Digraph, roots: set<string>, committed: seq<string>)
    requires Topological(g, committed) && forall n :: Reachable(g, roots, n) ==> n in committed
    ensures !CycleReached(g, roots)
  {
    forall p | |p| >= 2 && Walk(g, p) && Reachable(g, roots, p[0]) ensures p[0] != p[|p| - 1] {
      var a :| 0 <= a < |committed| && committed[a] == p[0];
      var b := WalkDescends(g, committed, p, a);
    }
  }

  /** A selected run that an earlier selected run already reaches. */
  ghost predicate Repeats(g: Digraph, runs: seq<string>, j: nat)
    requires j < |runs|
  {
    Reachable(g, First(runs, j), runs[j])
  }

  lemma NextRun(g: Digraph, runs: seq<string>, i: nat, indexed: set<string>, committed: seq<string>)
    requires i < |runs| && State(g, First(runs, i), First(runs, |runs|), [], indexed, committed)
    requires First(runs, i) <= indexed
    ensures State(g, First(runs, i + 1), First(runs, |runs|), [], indexed, committed)
    ensures Reachable(g, First(runs, i + 1), runs[i]) && First(runs, i + 1) == First(runs, i) + {runs[i]}
    ensures runs[i] in indexed <==> Repeats(g, runs, i)
  {
    assert runs[..i + 1] == runs[..i] + [runs[i]];
    assert runs[..|runs|] == runs;
    IndexedIsReachable(g, First(runs, i), First(runs, |runs|), indexed, committed, runs[i]);
    RootReachable(g, First(runs, i + 1), runs[i]);
    StateMoreRoots(g, First(runs, i), First(runs, i + 1), First(runs, |runs|), indexed, committed);
  }

  lemma RunsIndexed(g: Digraph, all: set<string>, indexed: set<string>, committed: seq<string>)
    requires State(g, all, all, [], indexed, committed) && all <= indexed
    ensures !Impossible(g, all)
    ensures Distinct(committed) && forall n :: n in committed <==> Reachable(g, all, n)
    ensures InputsFirst(g, committed) && (Topological(g, committed) <==> !CycleReached(g, all))
  {
    NotImpossible(g, all, all, indexed, committed);
    forall n ensures n in committed <==> Reachable(g, all, n) {
      IndexedIsReachable(g, all, all, indexed, committed, n);
    }
    if Topological(g, committed) {
      OrderedReachesNoCycle(g, all, committed);
    }
  }

  /** The selection can be indexed: nothing is missing or too large, and no run repeats. */
  ghost predicate Indexable(g: Digraph, runs: seq<string>) {
    !Impossible(g, First(runs, |runs|)) && forall j :: 0 <= j < |runs| ==> !Repeats(g, runs, j)
  }

  /** The indexer after the first `k` runs. */
  ghost predicate Selected(g: Digraph, runs: seq<string>, k: nat, indexer: Indexer)
    requires k <= |runs|
    reads indexer
  {
    && indexer.Valid(g, First(runs, k), First(runs, |runs|), []) && First(runs, k) <= indexer.indexed
    && forall j :: 0 <= j < k ==> !Repeats(g, runs, j)
  }

  /** One selected run; a run that returns no manifest stops the export. */
  method IndexRun(g: Digraph, runs: seq<string>, i: nat, indexer: Indexer) returns (ok: bool)
    requires i < |runs| && Selected(g, runs, i, indexer)
    modifies indexer
    ensures ok ==> Selected(g, runs, i + 1, indexer)
    ensures !ok ==> !Indexable(g, runs)
  {
    NextRun(g, runs, i, indexer.indexed, indexer.committed);
    var returned;
    ok, returned := indexer.Index(g, runs[i], First(runs, i + 1), First(runs, |runs|), []);
    if !ok {
      ImpossibleMoreRoots(g, First(runs, i + 1), First(runs, |runs|));
    }
    ok := ok && returned;
  }

  lemma SelectionIndexed(g: Digraph, runs: seq<string>, indexer: Indexer)
    requires Selected(g, runs, |runs|, indexer)
    ensures Indexable(g, runs) && Distinct(indexer.committed)
    ensures forall n :: n in indexer.committed <==> Reachable(g, First(runs, |runs|), n)
    ensures InputsFirst(g, indexer.committed)
    ensures Topological(g, indexer.committed) <==> !CycleReached(g, First(runs, |runs|))
  {
    RunsIndexed(g, First(runs, |runs|), indexer.indexed, indexer.committed);
  }

  /** Index every selected run. It succeeds exactly when every reachable artifact exists, there are
      few enough of them, and no run lies in the lineage of an earlier one; it then commits each
      reachable artifact once, after all inputs that do not lead back to it, and in topological order
      if and only if no cycle is reachable. */
  method IndexRuns(g: Digraph, runs: seq<string>) returns (ok: bool, ghost committed: seq<string>)
    ensures ok <==> Indexable(g, runs)
    ensures ok ==> Distinct(committed) && forall n :: n in committed <==> Reachable(g, First(runs, |runs|), n)
    ensures ok ==> InputsFirst(g, committed) && (Topological(g, committed) <==> !CycleReached(g, First(runs, |runs|)))
  {
    var indexer := new Indexer();
    committed := [];
    for i := 0 to |runs|
      invariant Selected(g, runs, i, indexer)
    {
      ok := IndexRun(g, runs, i, indexer);
      if !ok {
        return;
      }
    }
    ok, committed := true, indexer.committed;
    SelectionIndexed(g, runs, indexer);
  }

  // ----- two small selections -----

  /** In a small catalogue that misses nothing, indexing is possible. */
  lemma SmallPossible(g: Digraph, roots: set<string>)
    requires Resolved(g) && roots <= g.Keys && |g.Keys| <= MAX_ARTIFACTS
    ensures !Impossible(g, roots)
  {
    forall n | Reachable(g, roots, n) ensures n in g {
      var p :| LeadsTo(g, roots, p, n);
      ClosedHoldsReachable(g, roots, g.Keys, p);
    }
    forall s: set<string> | forall n :: n in s ==> Reachable(g, roots, n) ensures |s| <= MAX_ARTIFACTS {
      assert s <= g.Keys;
      SubsetSize(s, g.Keys);
    }
  }

  /** Two artifacts that name each other are indexed without complaint. */
  lemma CycleIsIndexed(g: Digraph, runs: seq<string>)
    requires g == map["a" := ["b"], "b" := ["a"]] && runs == ["a"]
    ensures Indexable(g, runs) && CycleReached(g, First(runs, |runs|))
  {
    assert runs[..1] == ["a"];
    assert g.Keys == {"a", "b"} && First(runs, 1) == {"a"};
    SmallPossible(g, {"a"});
    forall p | LeadsTo(g, First(runs, 0), p, "a") ensures false {
    }
    var p := ["a", "b", "a"];
    assert Step(g, p, 0) && Step(g, p, 1);
    RootReachable(g, {"a"}, "a");
  }

  /** A second run that is an input of the first one ends the export, though nothing is missing. */
  lemma RepeatedRunFails(g: Digraph, runs: seq<string>)
    requires g == map["a" := ["b"], "b" := []] && runs == ["a", "b"]
    ensures !Impossible(g, First(runs, |runs|)) && !Indexable(g, runs)
  {
    assert runs[..1] == ["a"] && runs[..2] == ["a", "b"];
    assert g.Keys == {"a", "b"} && First(runs, 2) == {"a", "b"} && First(runs, 1) == {"a"};
    SmallPossible(g, {"a", "b"});
    RootReachable(g, {"a"}, "a");
    InputReachable(g, {"a"}, "a", "b");
    assert Repeats(g, runs, 1);
  }

  // ----- published lineage -----

  /** Holds the runs and, with every member, the whole published lineage of that member. */
  ghost predicate Complete(lineage: string -> set<string>, runs: set<string>, s: set<string>) {
    runs <= s && forall n :: n in s ==> lineage(n) <= s
  }

  ghost predicate SmallComplete(lineage: string -> set<string>, runs: set<string>) {
    exists s: set<string> :: Complete(lineage, runs, s) && |s| <= MAX_ARTIFACTS
  }

  /** `done` is followed, `pending` is not yet, and every complete set holds both. */
  ghost predicate Following(lineage: string -> set<string>, runs: set<string>, pending: set<string>,
                            done: set<string>)
  {
    && runs <= done + pending && pending !! done
    && (forall n :: n in done ==> lineage(n) <= done + pending)
    && (forall s: set<string> :: Complete(lineage, runs, s) ==> done + pending <= s)
  }

  lemma FollowOne(lineage: string -> set<string>, runs: set<string>, pending: set<string>, done: set<string>, n: string)
    requires Following(lineage, runs, pending, done) && n in pending
    ensures Following(lineage, runs, pending - {n} + (lineage(n) - done - {n}), done + {n})
  {
  }

  lemma TooLarge(lineage: string -> set<string>, runs: set<string>, pending: set<string>, done: set<string>)
    requires Following(lineage, runs, pending, done) && |done + pending| > MAX_ARTIFACTS
    ensures !SmallComplete(lineage, runs)
  {
    forall s: set<string> | Complete(lineage, runs, s) ensures |s| > MAX_ARTIFACTS {
      SubsetSize(done + pending, s);
    }
  }

  lemma AllFollowed(lineage: string -> set<string>, runs: set<string>, done: set<string>)
    requires Following(lineage, runs, {}, done) && |done| <= MAX_ARTIFACTS
    ensures Complete(lineage, runs, done) && SmallComplete(lineage, runs)
    ensures forall s: set<string> :: Complete(lineage, runs, s) ==> done <= s
  {
  }

  /** The pending/done loop: it succeeds exactly when some complete set is small enough, and then
      `done` is the least complete set. */
  method FollowLineage(lineage: string -> set<string>, runs: set<string>) returns (ok: bool, done: set<string>)
    ensures ok <==> SmallComplete(lineage, runs)
    ensures ok ==> Complete(lineage, runs, done) && forall s: set<string> :: Complete(lineage, runs, s) ==> done <= s
  {
    var pending := runs;
    done := {};
    while pending != {}
      invariant Following(lineage, runs, pending, done)
      invariant |done| <= MAX_ARTIFACTS
      decreases MAX_ARTIFACTS + 1 - |done|
    {
      var identity :| identity in pending;
      FollowOne(lineage, runs, pending, done, identity);
      pending, done := pending - {identity} + (lineage(identity) - done - {identity}), done + {identity};
      if |done + pending| > MAX_ARTIFACTS {
        TooLarge(lineage, runs, pending, done);
        return false, done;
      }
      SubsetSize(done, done + pending);
    }
    AllFollowed(lineage, runs, done);
    ok := true;
  }
}
