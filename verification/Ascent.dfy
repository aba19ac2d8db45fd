/** The local-moving loop run on modularity: each move is an ascent step of one integer potential,
    so runs are bounded and a reported fixpoint is a local optimum. */
module Ascent {
  import opened PairGraph
  import opened Modularity
  import opened LocalMoving

  ghost function ScoreOf(g: Graph): (Labels, nat, nat) -> real {
    (m: Labels, v: nat, c: nat) => if Labelling(g, m) && v < g.order then Score(g, m, v, c) else 0.0
  }

  /** The loop's own rule: modularity scores with tolerance `eps`. */
  ghost function Greedy(g: Graph, eps: real): Rule {
    Rule(g, ScoreOf(g), eps)
  }

  ghost function PhiOf(g: Graph): Labels -> int {
    m => if Labelling(g, m) then Phi(g, m) else 0
  }

  lemma {:induction false} WeightCounts(g: Graph, e: nat, k: nat)
    requires g.Valid() && e < k <= g.Size()
    ensures Weight(g, k) >= g.weight[e]
  {
    if e < k - 1 {
      WeightCounts(g, e, k - 1);
    }
  }

  lemma MassOfPairs(g: Graph)
    requires g.Valid() && g.Size() > 0
    ensures Mass(g, g.order) > 0
  {
    Handshake(g);
    WeightCounts(g, 0, g.Size());
  }

  lemma Worth(mass: nat, x: real, x': real, eps: real, rise: int, quantum: real)
    requires mass > 0 && x' > x + eps && eps >= 0.0 && quantum == 2.0 * (mass as real * eps)
    requires rise as real == 2.0 * (mass as real * (x' - x))
    ensures rise >= 1 && rise as real > quantum
  {
  }

  lemma MoveRises(g: Graph, m: Labels, v: nat, b: nat, mass: nat, eps: real, quantum: real)
    returns (phi: int, phi': int)
    requires Labelling(g, m) && v < g.order && b < g.order && mass == Mass(g, g.order) && mass > 0
    requires ScoreOf(g)(m, v, b) > ScoreOf(g)(m, v, m[v]) + eps
    requires eps >= 0.0 && quantum == 2.0 * (mass as real * eps)
    ensures phi == Phi(g, m) && phi' == Phi(g, m[v := b])
    ensures phi' - phi >= 1 && (phi' - phi) as real > quantum
  {
    var x, x';
    phi, phi', x, x' := MoveChangesPhi(g, m, v, b, mass);
    Worth(mass, x, x', eps, phi' - phi, quantum);
  }

  lemma VisitRises(g: Graph, r: Rule, m: Labels, v: nat, mass: nat, quantum: real) returns (phi: int, phi': int)
    requires Labelling(g, m) && v < g.order && mass == Mass(g, g.order)
    requires r == Greedy(g, r.eps) && r.eps >= 0.0 && quantum == 2.0 * (mass as real * r.eps)
    requires Visit(r, m, v) != m
    ensures phi == Phi(g, m) && phi' == Phi(g, Visit(r, m, v))
    ensures phi' - phi >= 1 && (phi' - phi) as real > quantum
  {
    BestDominates(r, m, v, g.order);
    MassOfPairs(g);
    phi, phi' := MoveRises(g, m, v, Best(r, m, v, g.order), mass, r.eps, quantum);
  }

  /** Every visit that relabels its wallet raises modularity's potential by at least one, and by
      more than the loop's tolerance measured in the potential's own unit. */
  lemma PhiLifts(g: Graph, r: Rule, f: Labels -> int, mass: nat, quantum: real)
    requires g.Valid() && r == Greedy(g, r.eps) && r.eps >= 0.0 && f == PhiOf(g)
    requires mass == Mass(g, g.order) && quantum == 2.0 * (mass as real * r.eps)
    ensures Lifts(r, f, 1.0) && Lifts(r, f, quantum)
  {
    forall m: Labels, v: nat | Labelling(r.g, m) && v < r.g.order && Visit(r, m, v) != m
      ensures (f(Visit(r, m, v)) - f(m)) as real >= 1.0 && (f(Visit(r, m, v)) - f(m)) as real >= quantum
    {
      var phi, phi' := VisitRises(g, r, m, v, mass, quantum);
    }
  }

  lemma PhiWithin(g: Graph, f: Labels -> int, m: Labels, mass: nat, bound: nat)
    requires Labelling(g, m) && f == PhiOf(g) && mass == Mass(g, g.order) && bound == mass * mass
    ensures f(m) + bound >= 0 && f(m) <= bound
  {
    PhiBounded(g, m, mass);
  }

  lemma MovesWithin(g: Graph, r: Rule, f: Labels -> int, passes: nat, mass: nat, moves: nat, quantum: real, bound: nat)
    requires g.Valid() && r.g == g && f == PhiOf(g) && mass == Mass(g, g.order) && bound == mass * mass
    requires Lifts(r, f, 1.0) && Lifts(r, f, quantum) && moves == TotalMoves(r, passes)
    ensures moves <= 2 * bound && Rise(moves, quantum) <= (2 * bound) as real
  {
    PhiWithin(g, f, Start(g.order), mass, bound);
    PhiWithin(g, f, Run(r, passes), mass, bound);
    RunWithin(r, passes, f, moves, quantum, bound);
  }

  /** All passes together make a bounded number of moves, however many passes are run, and `moves`
      rises of the loop's tolerance fit into the range of the potential. */
  lemma MovesBounded(g: Graph, r: Rule, passes: nat, mass: nat, moves: nat, quantum: real, bound: nat)
    requires g.Valid() && r == Greedy(g, r.eps) && r.eps >= 0.0 && moves == TotalMoves(r, passes)
    requires mass == Mass(g, g.order) && quantum == 2.0 * (mass as real * r.eps) && bound == mass * mass
    ensures moves <= 2 * bound && Rise(moves, quantum) <= (2 * bound) as real
  {
    PhiLifts(g, r, PhiOf(g), mass, quantum);
    MovesWithin(g, r, PhiOf(g), passes, mass, moves, quantum, bound);
  }

  /** Only so many passes can move anything, so without its cap the loop would still stop. */
  lemma BusyPassesBounded(g: Graph, r: Rule, passes: nat, mass: nat, bound: nat)
    requires g.Valid() && r == Greedy(g, r.eps) && r.eps >= 0.0 && mass == Mass(g, g.order) && bound == mass * mass
    requires forall p :: 0 <= p < passes ==> Busy(r, p)
    ensures passes <= 2 * bound
  {
    BusyPassesMove(r, passes);
    MovesBounded(g, r, passes, mass, TotalMoves(r, passes), 2.0 * (mass as real * r.eps), bound);
  }

  /** Modularity's potential never falls from any state of a run, mid-pass included, to any later one. */
  lemma PhiNeverFalls(g: Graph, r: Rule, f: Labels -> int, p: nat, k: nat, p': nat, k': nat, m: Labels, m': Labels)
    requires g.Valid() && r == Greedy(g, r.eps) && r.eps >= 0.0 && f == PhiOf(g)
    requires Earlier(p, k, p', k') && Reached(r, p, k, m) && Reached(r, p', k', m')
    ensures f(m) <= f(m')
  {
    PhiLifts(g, r, f, Mass(g, g.order), 2.0 * (Mass(g, g.order) as real * r.eps));
    NeverFalls(r, f, p, k, p', k', m, m');
  }

  lemma StillIffReturned(g: Graph, m: Labels, r: Rule)
    requires Labelling(g, m) && r == Greedy(g, r.eps) && r.eps >= 0.0
    ensures Moves(r, m, g.order) == 0 <==> Sweep(r, m, g.order) == m
  {
    PhiLifts(g, r, PhiOf(g), Mass(g, g.order), 2.0 * (Mass(g, g.order) as real * r.eps));
    StillIffFixed(r, m, PhiOf(g));
  }

  /** The `stable` flag of a pass is exact: the pass moves nothing if and only if the labelling it
      starts from is locally optimal, if and only if it returns that labelling. */
  lemma StableIffOptimal(g: Graph, m: Labels, r: Rule)
    requires Labelling(g, m) && r == Greedy(g, r.eps) && r.eps >= 0.0
    ensures Moves(r, m, g.order) == 0 <==> LocallyOptimal(r, m)
    ensures Moves(r, m, g.order) == 0 <==> Sweep(r, m, g.order) == m
  {
    StillIffOptimal(r, m);
    StillIffReturned(g, m, r);
  }
}
