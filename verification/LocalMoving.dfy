/** Reference semantics of the local-moving loop for an arbitrary score, stated without running
    totals, candidate maps or adjacency lists, and what holds over whole runs of it. */
module LocalMoving {
  import opened PairGraph
  import opened Modularity
  import opened Ordering

  /** What the loop is run with: `score(m, v, c)` rates wallet `v` in group `c` under `m`. */
  datatype Rule = Rule(g: Graph, score: (Labels, nat, nat) -> real, eps: real) {
    ghost predicate Valid() {
      g.Valid() && eps >= 0.0
    }
  }

  /** The label chosen for `v` after the candidate labels below `k`, in ascending order. */
  function Best(r: Rule, m: Labels, v: nat, k: nat): (b: nat)
    requires Labelling(r.g, m) && v < r.g.order && k <= r.g.order
    ensures b < r.g.order
  {
    if k == 0 then m[v]
    else
      var b := Best(r, m, v, k - 1);
      if Neighbouring(r.g, m, v, k - 1) && r.score(m, v, k - 1) > r.score(m, v, b) + r.eps then k - 1 else b
  }

  function Visit(r: Rule, m: Labels, v: nat): (m': Labels)
    requires Labelling(r.g, m) && v < r.g.order
    ensures Labelling(r.g, m')
  {
    m[v := Best(r, m, v, r.g.order)]
  }

  /** One pass over the wallets below `k`. */
  function Sweep(r: Rule, m: Labels, k: nat): (m': Labels)
    requires Labelling(r.g, m) && k <= r.g.order
    ensures Labelling(r.g, m')
  {
    if k == 0 then m else Visit(r, Sweep(r, m, k - 1), k - 1)
  }

  /** How many wallets below `k` change label in the pass that starts from `m`. */
  function Moves(r: Rule, m: Labels, k: nat): nat
    requires Labelling(r.g, m) && k <= r.g.order
  {
    if k == 0 then 0
    else
      var before := Sweep(r, m, k - 1);
      Moves(r, m, k - 1) + if Visit(r, before, k - 1) != before then 1 else 0
  }

  function Start(n: nat): (m: Labels)
    ensures |m| == n && forall v :: 0 <= v < n ==> m[v] == v
  {
    seq(n, v => v)
  }

  /** The labelling after `passes` complete passes. */
  function Run(r: Rule, passes: nat): (m: Labels)
    requires r.g.Valid()
    ensures Labelling(r.g, m)
  {
    if passes == 0 then Start(r.g.order) else Sweep(r, Run(r, passes - 1), r.g.order)
  }

  /** Moves made by the first `passes` passes together. */
  function TotalMoves(r: Rule, passes: nat): nat
    requires r.g.Valid()
  {
    if passes == 0 then 0 else TotalMoves(r, passes - 1) + Moves(r, Run(r, passes - 1), r.g.order)
  }

  // ----- the choice -----

  lemma {:induction false} BestDominates(r: Rule, m: Labels, v: nat, k: nat)
    requires r.Valid() && Labelling(r.g, m) && v < r.g.order && k <= r.g.order
    ensures var b := Best(r, m, v, k);
            && (b == m[v] || (Neighbouring(r.g, m, v, b) && r.score(m, v, b) > r.score(m, v, m[v]) + r.eps))
            && forall c :: 0 <= c < k && Neighbouring(r.g, m, v, c) ==> r.score(m, v, c) <= r.score(m, v, b) + r.eps
  {
    if k > 0 {
      BestDominates(r, m, v, k - 1);
    }
  }

  /** A group that beats every other candidate by more than `eps` is chosen. */
  lemma {:induction false} BestIsClear(r: Rule, m: Labels, v: nat, b: nat, k: nat)
    requires r.Valid() && Labelling(r.g, m) && v < r.g.order && k <= r.g.order
    requires b == m[v] || (b < r.g.order && Neighbouring(r.g, m, v, b))
    requires forall c :: 0 <= c < r.g.order && c != b && (c == m[v] || Neighbouring(r.g, m, v, c)) ==>
               r.score(m, v, b) > r.score(m, v, c) + r.eps
    ensures var c := Best(r, m, v, k); c == m[v] || Neighbouring(r.g, m, v, c)
    ensures b == m[v] || b < k ==> Best(r, m, v, k) == b
  {
    if k > 0 {
      BestIsClear(r, m, v, b, k - 1);
    }
  }

  // ----- potentials over whole runs -----

  /** Every relabelling visit lifts `f` by at least `step`. */
  ghost predicate Lifts(r: Rule, f: Labels -> int, step: real)
    requires r.g.Valid()
  {
    forall m: Labels, v: nat :: Labelling(r.g, m) && v < r.g.order && Visit(r, m, v) != m ==>
      (f(Visit(r, m, v)) - f(m)) as real >= step
  }

  /** `n` rises of `step` each. */
  ghost function Rise(n: nat, step: real): real {
    if n == 0 then 0.0 else Rise(n - 1, step) + step
  }

  lemma {:induction false} RiseIsProduct(n: nat, step: real)
    ensures Rise(n, step) == n as real * step
  {
    if n > 0 {
      RiseIsProduct(n - 1, step);
      assert n as real * step == (n - 1) as real * step + step;
    }
  }

  lemma {:induction false} RiseAdds(a: nat, b: nat, step: real)
    ensures Rise(a + b, step) == Rise(a, step) + Rise(b, step)
  {
    if b > 0 {
      RiseAdds(a, b - 1, step);
    }
  }

  lemma Chain(a: int, b: int, c: int, x: nat, y: nat, step: real)
    requires (b - a) as real >= Rise(x, step) && (c - b) as real >= Rise(y, step)
    ensures (c - a) as real >= Rise(x + y, step)
  {
    RiseAdds(x, y, step);
  }

  lemma {:induction false} SweepLifts(r: Rule, m: Labels, k: nat, f: Labels -> int, step: real, moves: nat)
    requires Labelling(r.g, m) && k <= r.g.order && Lifts(r, f, step) && moves == Moves(r, m, k)
    ensures (f(Sweep(r, m, k)) - f(m)) as real >= Rise(moves, step)
  {
    if k > 0 {
      var before, earlier := Sweep(r, m, k - 1), Moves(r, m, k - 1);
      SweepLifts(r, m, k - 1, f, step, earlier);
      if Visit(r, before, k - 1) != before {
        Chain(f(m), f(before), f(Visit(r, before, k - 1)), earlier, 1, step);
      }
    }
  }

  lemma {:induction false} RunLifts(r: Rule, passes: nat, f: Labels -> int, step: real, moves: nat)
    requires r.g.Valid() && Lifts(r, f, step) && moves == TotalMoves(r, passes)
    ensures (f(Run(r, passes)) - f(Start(r.g.order))) as real >= Rise(moves, step)
  {
    if passes > 0 {
      var earlier, m := TotalMoves(r, passes - 1), Run(r, passes - 1);
      var more := Moves(r, m, r.g.order);
      RunLifts(r, passes - 1, f, step, earlier);
      SweepLifts(r, m, r.g.order, f, step, more);
      Chain(f(Start(r.g.order)), f(m), f(Sweep(r, m, r.g.order)), earlier, more, step);
    }
  }

  /** Pass number `p`, counted from zero, relabels some wallet. */
  ghost predicate Busy(r: Rule, p: nat)
    requires r.g.Valid()
  {
    Moves(r, Run(r, p), r.g.order) > 0
  }

  lemma {:induction false} BusyPassesMove(r: Rule, passes: nat)
    requires r.g.Valid() && forall p :: 0 <= p < passes ==> Busy(r, p)
    ensures TotalMoves(r, passes) >= passes
  {
    if passes > 0 {
      BusyPassesMove(r, passes - 1);
      assert Busy(r, passes - 1);
    }
  }

  lemma CountsAtLeast(rise: int, moves: nat)
    requires rise as real >= Rise(moves, 1.0)
    ensures rise >= moves
  {
    RiseIsProduct(moves, 1.0);
  }

  lemma PassCounts(r: Rule, m: Labels, k: nat, f: Labels -> int)
    requires Labelling(r.g, m) && k <= r.g.order && Lifts(r, f, 1.0)
    ensures f(Sweep(r, m, k)) >= f(m) + Moves(r, m, k)
  {
  }

  /** All passes together make no more moves than the potential rises. */
  lemma RunCounts(r: Rule, passes: nat, f: Labels -> int, moves: nat)
    requires r.g.Valid() && Lifts(r, f, 1.0) && moves == TotalMoves(r, passes)
    ensures f(Run(r, passes)) >= f(Start(r.g.order)) + moves
  {
    RunLifts(r, passes, f, 1.0, moves);
    CountsAtLeast(f(Run(r, passes)) - f(Start(r.g.order)), moves);
  }

  /** State `(p, k)` of a run: `p` passes done, and `k` wallets visited in the next. */
  ghost predicate Reached(r: Rule, p: nat, k: nat, m: Labels)
    requires r.g.Valid()
  {
    k <= r.g.order && m == Sweep(r, Run(r, p), k)
  }

  predicate Earlier(p: nat, k: nat, p': nat, k': nat) {
    p < p' || (p == p' && k <= k')
  }

  lemma {:induction false} RisesInPass(r: Rule, m: Labels, k: nat, k': nat, f: Labels -> int)
    requires Labelling(r.g, m) && k <= k' <= r.g.order && Lifts(r, f, 1.0)
    ensures f(Sweep(r, m, k)) <= f(Sweep(r, m, k'))
    decreases k'
  {
    if k < k' {
      RisesInPass(r, m, k, k' - 1, f);
      var before := Sweep(r, m, k' - 1);
      assert Visit(r, before, k' - 1) != before ==> (f(Visit(r, before, k' - 1)) - f(before)) as real >= 1.0;
    }
  }

  lemma {:induction false} RisesOverPasses(r: Rule, p: nat, p': nat, f: Labels -> int)
    requires r.g.Valid() && p <= p' && Lifts(r, f, 1.0)
    ensures f(Run(r, p)) <= f(Run(r, p'))
    decreases p'
  {
    if p < p' {
      RisesOverPasses(r, p, p' - 1, f);
      RisesInPass(r, Run(r, p' - 1), 0, r.g.order, f);
    }
  }

  /** A potential never falls from any state of a run to any later one. */
  lemma NeverFalls(r: Rule, f: Labels -> int, p: nat, k: nat, p': nat, k': nat, m: Labels, m': Labels)
    requires r.g.Valid() && Lifts(r, f, 1.0)
    requires Earlier(p, k, p', k') && Reached(r, p, k, m) && Reached(r, p', k', m')
    ensures f(m) <= f(m')
  {
    if p < p' {
      RisesInPass(r, Run(r, p), k, r.g.order, f);
      RisesOverPasses(r, p + 1, p', f);
      RisesInPass(r, Run(r, p'), 0, k', f);
    } else {
      RisesInPass(r, Run(r, p), k, k', f);
    }
  }

  /** A potential between `-bound` and `bound` limits the moves of all passes together. */
  lemma RunWithin(r: Rule, passes: nat, f: Labels -> int, moves: nat, step: real, bound: nat)
    requires r.g.Valid() && Lifts(r, f, 1.0) && Lifts(r, f, step) && moves == TotalMoves(r, passes)
    requires f(Start(r.g.order)) + bound >= 0 && f(Run(r, passes)) <= bound
    ensures moves <= 2 * bound && Rise(moves, step) <= (2 * bound) as real
  {
    RunCounts(r, passes, f, moves);
    RunLifts(r, passes, f, step, moves);
    Within(f(Start(r.g.order)), f(Run(r, passes)), bound, moves, step);
  }

  lemma Within(a: int, b: int, bound: nat, moves: nat, step: real)
    requires a + bound >= 0 && b <= bound && b >= a + moves && (b - a) as real >= Rise(moves, step)
    ensures moves <= 2 * bound && Rise(moves, step) <= (2 * bound) as real
  {
  }

  // ----- stability -----

  /** No wallet gains more than `eps` by joining a group that one of its pairs reaches. */
  ghost predicate LocallyOptimal(r: Rule, m: Labels)
    requires Labelling(r.g, m)
  {
    forall v, c :: 0 <= v < r.g.order && 0 <= c < r.g.order && Neighbouring(r.g, m, v, c) ==>
      r.score(m, v, c) <= r.score(m, v, m[v]) + r.eps
  }

  lemma {:induction false} StillSweep(r: Rule, m: Labels, k: nat)
    requires Labelling(r.g, m) && k <= r.g.order && Moves(r, m, k) == 0
    ensures Sweep(r, m, k) == m
    ensures forall v :: 0 <= v < k ==> Visit(r, m, v) == m
  {
    if k > 0 {
      StillSweep(r, m, k - 1);
    }
  }

  lemma {:induction false} OptimalStays(r: Rule, m: Labels, v: nat, k: nat)
    requires Labelling(r.g, m) && v < r.g.order && k <= r.g.order && LocallyOptimal(r, m)
    ensures Best(r, m, v, k) == m[v]
  {
    if k > 0 {
      OptimalStays(r, m, v, k - 1);
    }
  }

  lemma {:induction false} OptimalSweep(r: Rule, m: Labels, k: nat)
    requires Labelling(r.g, m) && k <= r.g.order && LocallyOptimal(r, m)
    ensures Moves(r, m, k) == 0
  {
    if k > 0 {
      OptimalSweep(r, m, k - 1);
      StillSweep(r, m, k - 1);
      OptimalStays(r, m, k - 1, r.g.order);
    }
  }

  /** A pass reports no moves exactly when the labelling it starts from is locally optimal. */
  lemma StillIffOptimal(r: Rule, m: Labels)
    requires r.Valid() && Labelling(r.g, m)
    ensures Moves(r, m, r.g.order) == 0 <==> LocallyOptimal(r, m)
  {
    if Moves(r, m, r.g.order) == 0 {
      StillSweep(r, m, r.g.order);
      forall v, c | 0 <= v < r.g.order && 0 <= c < r.g.order && Neighbouring(r.g, m, v, c)
        ensures r.score(m, v, c) <= r.score(m, v, m[v]) + r.eps
      {
        assert Visit(r, m, v)[v] == Best(r, m, v, r.g.order);
        BestDominates(r, m, v, r.g.order);
      }
    }
    if LocallyOptimal(r, m) {
      OptimalSweep(r, m, r.g.order);
    }
  }

  /** With a potential, a pass moves nothing exactly when it returns the labelling it was given. */
  lemma StillIffFixed(r: Rule, m: Labels, f: Labels -> int)
    requires Labelling(r.g, m) && Lifts(r, f, 1.0)
    ensures Moves(r, m, r.g.order) == 0 <==> Sweep(r, m, r.g.order) == m
  {
    PassCounts(r, m, r.g.order, f);
    if Moves(r, m, r.g.order) == 0 {
      StillSweep(r, m, r.g.order);
    }
  }

  // ----- labels -----

  /** The labels in use. */
  ghost function Used(m: Labels): set<nat> {
    set v | v in m
  }

  lemma VisitReuses(r: Rule, m: Labels, v: nat)
    requires r.Valid() && Labelling(r.g, m) && v < r.g.order
    ensures Used(Visit(r, m, v)) <= Used(m)
  {
    BestDominates(r, m, v, r.g.order);
  }

  lemma {:induction false} ShrinksInPass(r: Rule, m: Labels, k: nat, k': nat)
    requires r.Valid() && Labelling(r.g, m) && k <= k' <= r.g.order
    ensures Used(Sweep(r, m, k')) <= Used(Sweep(r, m, k))
    decreases k'
  {
    if k < k' {
      ShrinksInPass(r, m, k, k' - 1);
      VisitReuses(r, Sweep(r, m, k' - 1), k' - 1);
    }
  }

  lemma {:induction false} ShrinksOverPasses(r: Rule, p: nat, p': nat)
    requires r.Valid() && p <= p'
    ensures Used(Run(r, p')) <= Used(Run(r, p))
    decreases p'
  {
    if p < p' {
      ShrinksOverPasses(r, p, p' - 1);
      ShrinksInPass(r, Run(r, p' - 1), 0, r.g.order);
    }
  }

  /** A label that falls out of use at any state of a run is never used again, so the number of groups
      never grows. */
  lemma LabelsNeverReturn(r: Rule, p: nat, k: nat, p': nat, k': nat, m: Labels, m': Labels)
    requires r.Valid() && Earlier(p, k, p', k') && Reached(r, p, k, m) && Reached(r, p', k', m')
    ensures forall name :: name in m' ==> name in m
    ensures |Used(m')| <= |Used(m)|
  {
    if p < p' {
      ShrinksInPass(r, Run(r, p), k, r.g.order);
      ShrinksOverPasses(r, p + 1, p');
      ShrinksInPass(r, Run(r, p'), 0, k');
    } else {
      ShrinksInPass(r, Run(r, p), k, k');
    }
    assert Used(m') <= Used(m);
    forall name | name in m' ensures name in m {
      assert name in Used(m');
    }
    SubsetSize(Used(m'), Used(m));
  }
}
