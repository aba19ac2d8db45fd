/** Modularity of a labelling, the score the local-moving loop compares, and the potential that
    every one of its moves raises. */
module Modularity {
  import opened PairGraph

  type Labels = seq<nat>

  /** One label per wallet; labels name wallets, as the loop starts from the identity. */
  ghost predicate Labelling(g: Graph, m: Labels) {
    && g.Valid()
    && |m| == g.order
    && forall v :: 0 <= v < |m| ==> m[v] < g.order
  }

  /** Weight joining `v` to group `c` over the first `k` pairs. */
  function Tie(g: Graph, m: Labels, v: nat, c: nat, k: nat): nat
    requires Labelling(g, m) && k <= g.Size()
  {
    if k == 0 then 0
    else Tie(g, m, v, c, k - 1)
         + if g.Touches(k - 1, v) && m[g.Other(k - 1, v)] == c then g.weight[k - 1] else 0
  }

  /** Strength of the members of group `c` among the first `k` wallets. */
  function Total(g: Graph, m: Labels, c: nat, k: nat): nat
    requires Labelling(g, m) && k <= g.order
  {
    if k == 0 then 0
    else Total(g, m, c, k - 1) + if m[k - 1] == c then Strength(g, k - 1, g.Size()) else 0
  }

  /** Strength of the members of group `c` other than `v`. */
  function Rest(g: Graph, m: Labels, v: nat, c: nat): int
    requires Labelling(g, m) && v < g.order
  {
    Total(g, m, c, g.order) - if m[v] == c then Strength(g, v, g.Size()) else 0
  }

  /** The comparison value `score(group)`, in ideal arithmetic. */
  function Gain(tie: int, strength: int, rest: int, mass: int): real {
    tie as real - if mass == 0 then 0.0 else (strength * rest) as real / mass as real
  }

  /** Modularity gain, up to a constant factor, of putting `v` into group `c`. */
  function Score(g: Graph, m: Labels, v: nat, c: nat): real
    requires Labelling(g, m) && v < g.order
  {
    Gain(Tie(g, m, v, c, g.Size()), Strength(g, v, g.Size()), Rest(g, m, v, c), Mass(g, g.order))
  }

  /** Group `c` holds an end of some pair whose other end is `v`. */
  predicate Neighbouring(g: Graph, m: Labels, v: nat, c: nat)
    requires Labelling(g, m)
  {
    exists e :: 0 <= e < g.Size() && g.Touches(e, v) && m[g.Other(e, v)] == c
  }

  /** Weight of the pairs below `k` whose two ends share a label. */
  function Inside(g: Graph, m: Labels, k: nat): nat
    requires Labelling(g, m) && k <= g.Size()
  {
    if k == 0 then 0
    else Inside(g, m, k - 1) + if m[g.left[k - 1]] == m[g.right[k - 1]] then g.weight[k - 1] else 0
  }

  /** Sum of the squared totals of the groups below `k`. */
  function Squares(g: Graph, m: Labels, k: nat): nat
    requires Labelling(g, m) && k <= g.order
  {
    if k == 0 then 0
    else Squares(g, m, k - 1) + Total(g, m, k - 1, g.order) * Total(g, m, k - 1, g.order)
  }

  /** The potential: modularity scaled to an integer. */
  function Phi(g: Graph, m: Labels): int
    requires Labelling(g, m)
  {
    2 * Mass(g, g.order) * Inside(g, m, g.Size()) - Squares(g, m, g.order)
  }

  // ----- one move -----

  lemma {:induction false} TotalOfMove(g: Graph, m: Labels, v: nat, b: nat, c: nat, k: nat)
    requires Labelling(g, m) && v < g.order && b < g.order && k <= g.order
    ensures var s := Strength(g, v, g.Size());
            Total(g, m[v := b], c, k) == Total(g, m, c, k)
                                         - (if v < k && m[v] == c then s else 0)
                                         + (if v < k && b == c then s else 0)
  {
    if k > 0 {
      TotalOfMove(g, m, v, b, c, k - 1);
    }
  }

  lemma {:induction false} TotalCounts(g: Graph, m: Labels, v: nat, k: nat)
    requires Labelling(g, m) && v < k <= g.order
    ensures Total(g, m, m[v], k) >= Strength(g, v, g.Size())
  {
    if v < k - 1 {
      TotalCounts(g, m, v, k - 1);
    }
  }

  lemma {:induction false} InsideOfMove(g: Graph, m: Labels, v: nat, b: nat, k: nat)
    requires Labelling(g, m) && v < g.order && b < g.order && k <= g.Size()
    ensures Inside(g, m[v := b], k) == Inside(g, m, k) + Tie(g, m, v, b, k) - Tie(g, m, v, m[v], k)
  {
    if k > 0 {
      InsideOfMove(g, m, v, b, k - 1);
    }
  }

  function Squared(g: Graph, m: Labels, c: nat): nat
    requires Labelling(g, m)
  {
    Total(g, m, c, g.order) * Total(g, m, c, g.order)
  }

  lemma {:induction false} SquaresOfMove(g: Graph, m: Labels, v: nat, b: nat, k: nat)
    requires Labelling(g, m) && v < g.order && b < g.order && b != m[v] && k <= g.order
    ensures Squares(g, m[v := b], k) == Squares(g, m, k)
                                        + (if m[v] < k then Squared(g, m[v := b], m[v]) - Squared(g, m, m[v]) else 0)
                                        + (if b < k then Squared(g, m[v := b], b) - Squared(g, m, b) else 0)
  {
    if k > 0 {
      SquaresOfMove(g, m, v, b, k - 1);
      TotalOfMove(g, m, v, b, k - 1, g.order);
    }
  }

  lemma GainTimesMass(tie: int, strength: int, rest: int, mass: int, gain: real)
    requires 0 <= strength <= mass && gain == Gain(tie, strength, rest, mass)
    ensures mass as real * gain == (mass * tie - strength * rest) as real
  {
  }

  lemma {:induction false} StrengthWithinMass(g: Graph, v: nat, k: nat)
    requires g.Valid() && v < k <= g.order
    ensures Strength(g, v, g.Size()) <= Mass(g, k)
  {
    if v < k - 1 {
      StrengthWithinMass(g, v, k - 1);
    }
  }

  /** The integer that `mass * score(group)` stands for. */
  ghost function Scaled(g: Graph, m: Labels, v: nat, c: nat): int
    requires Labelling(g, m) && v < g.order
  {
    Mass(g, g.order) * Tie(g, m, v, c, g.Size()) - Strength(g, v, g.Size()) * Rest(g, m, v, c)
  }

  /** The numbers behind a score, named so that arithmetic about them stays small. */
  lemma ScoreTerms(g: Graph, m: Labels, v: nat, c: nat, mass: nat)
    returns (tie: int, strength: int, rest: int, score: real, scaled: int)
    requires Labelling(g, m) && v < g.order && mass == Mass(g, g.order)
    ensures score == Score(g, m, v, c) && scaled == Scaled(g, m, v, c)
    ensures 0 <= strength <= mass
    ensures score == Gain(tie, strength, rest, mass)
    ensures scaled == mass * tie - strength * rest
  {
    StrengthWithinMass(g, v, g.order);
    tie, strength, rest := Tie(g, m, v, c, g.Size()), Strength(g, v, g.Size()), Rest(g, m, v, c);
    score, scaled := Score(g, m, v, c), Scaled(g, m, v, c);
  }

  lemma ScoreIsScaled(g: Graph, m: Labels, v: nat, c: nat, mass: nat) returns (score: real, scaled: int)
    requires Labelling(g, m) && v < g.order && mass == Mass(g, g.order)
    ensures score == Score(g, m, v, c) && scaled == Scaled(g, m, v, c)
    ensures mass as real * score == scaled as real
  {
    var tie, strength, rest;
    tie, strength, rest, score, scaled := ScoreTerms(g, m, v, c, mass);
    GainTimesMass(tie, strength, rest, mass, score);
  }

  lemma ScoresDiffer(g: Graph, m: Labels, v: nat, b: nat, mass: nat) returns (before: real, after: real, rise: int)
    requires Labelling(g, m) && v < g.order && b < g.order && mass == Mass(g, g.order)
    ensures before == Score(g, m, v, m[v]) && after == Score(g, m, v, b)
    ensures rise == Scaled(g, m, v, b) - Scaled(g, m, v, m[v])
    ensures mass as real * (after - before) == rise as real
  {
    var from, to;
    before, from := ScoreIsScaled(g, m, v, m[v], mass);
    after, to := ScoreIsScaled(g, m, v, b, mass);
    rise := to - from;
    Distribute(mass, before, after, from, to);
  }

  lemma Distribute(mass: int, x: real, x': real, a: int, a': int)
    requires mass as real * x == a as real && mass as real * x' == a' as real
    ensures mass as real * (x' - x) == (a' - a) as real
  {
  }

  lemma MoveChangesPhiInt(g: Graph, m: Labels, v: nat, b: nat) returns (phi: int, phi': int, rise: int)
    requires Labelling(g, m) && v < g.order && b < g.order
    ensures phi == Phi(g, m) && phi' == Phi(g, m[v := b])
    ensures rise == Scaled(g, m, v, b) - Scaled(g, m, v, m[v])
    ensures phi' - phi == 2 * rise
  {
    phi, phi', rise := Phi(g, m), Phi(g, m[v := b]), Scaled(g, m, v, b) - Scaled(g, m, v, m[v]);
    if b == m[v] {
      assert m[v := b] == m;
      return;
    }
    InsideOfMove(g, m, v, b, g.Size());
    SquaresOfMove(g, m, v, b, g.order);
    TotalOfMove(g, m, v, b, b, g.order);
    TotalOfMove(g, m, v, b, m[v], g.order);
    PhiArithmetic(Mass(g, g.order), Strength(g, v, g.Size()), Inside(g, m, g.Size()), Inside(g, m[v := b], g.Size()),
                  Tie(g, m, v, b, g.Size()), Tie(g, m, v, m[v], g.Size()),
                  Rest(g, m, v, b), Rest(g, m, v, m[v]),
                  Squares(g, m, g.order), Squares(g, m[v := b], g.order));
  }

  lemma PhiArithmetic(mass: int, s: int, i: int, i': int, wb: int, wp: int, rb: int, rp: int, q: int, q': int)
    requires i' == i + wb - wp
    requires q' == q + (rp * rp - (rp + s) * (rp + s)) + ((rb + s) * (rb + s) - rb * rb)
    ensures (2 * mass * i' - q') - (2 * mass * i - q) == 2 * (mass * wb - s * rb) - 2 * (mass * wp - s * rp)
  {
  }

  /** Relabelling one wallet changes the potential by exactly twice the mass times the score
      difference, so the loop's local comparison is a comparison of whole labellings. The
      results name the quantities of the equation. */
  lemma MoveChangesPhi(g: Graph, m: Labels, v: nat, b: nat, mass: nat) returns (phi: int, phi': int, x: real, x': real)
    requires Labelling(g, m) && v < g.order && b < g.order && mass == Mass(g, g.order)
    ensures phi == Phi(g, m) && phi' == Phi(g, m[v := b])
    ensures x == Score(g, m, v, m[v]) && x' == Score(g, m, v, b)
    ensures (phi' - phi) as real == 2.0 * (mass as real * (x' - x))
  {
    var rise, rise';
    x, x', rise := ScoresDiffer(g, m, v, b, mass);
    phi, phi', rise' := MoveChangesPhiInt(g, m, v, b);
  }

  // ----- bounds -----

  lemma {:induction false} InsideWithinWeight(g: Graph, m: Labels, k: nat)
    requires Labelling(g, m) && k <= g.Size()
    ensures Inside(g, m, k) <= Weight(g, k)
  {
    if k > 0 {
      InsideWithinWeight(g, m, k - 1);
    }
  }

  /** Sum over the first `c` groups of their total over the first `k` wallets. */
  ghost function Totals(g: Graph, m: Labels, c: nat, k: nat): nat
    requires Labelling(g, m) && k <= g.order
  {
    if c == 0 then 0 else Totals(g, m, c - 1, k) + Total(g, m, c - 1, k)
  }

  lemma {:induction false} TotalsStep(g: Graph, m: Labels, c: nat, k: nat)
    requires Labelling(g, m) && 0 < k <= g.order
    ensures Totals(g, m, c, k) == Totals(g, m, c, k - 1) + if m[k - 1] < c then Strength(g, k - 1, g.Size()) else 0
  {
    if c > 0 {
      TotalsStep(g, m, c - 1, k);
    }
  }

  lemma {:induction false} TotalsEmpty(g: Graph, m: Labels, c: nat)
    requires Labelling(g, m)
    ensures Totals(g, m, c, 0) == 0
  {
    if c > 0 {
      TotalsEmpty(g, m, c - 1);
    }
  }

  /** The groups share out the whole mass, whatever the labelling. */
  lemma {:induction false} TotalsAreMass(g: Graph, m: Labels, k: nat)
    requires Labelling(g, m) && k <= g.order
    ensures Totals(g, m, g.order, k) == Mass(g, k)
  {
    if k == 0 {
      TotalsEmpty(g, m, g.order);
    } else {
      TotalsAreMass(g, m, k - 1);
      TotalsStep(g, m, g.order, k);
    }
  }

  lemma {:induction false} SquaresWithinTotals(g: Graph, m: Labels, k: nat)
    requires Labelling(g, m) && k <= g.order
    ensures Squares(g, m, k) <= Totals(g, m, k, g.order) * Totals(g, m, k, g.order)
  {
    if k > 0 {
      SquaresWithinTotals(g, m, k - 1);
      SquareOfSum(Totals(g, m, k - 1, g.order), Total(g, m, k - 1, g.order));
    }
  }

  lemma SquareOfSum(a: nat, b: nat)
    ensures a * a + b * b <= (a + b) * (a + b)
  {
  }

  lemma PhiTerms(g: Graph, m: Labels, mass: nat) returns (inside: nat, squares: nat)
    requires Labelling(g, m) && mass == Mass(g, g.order)
    ensures Phi(g, m) == 2 * mass * inside - squares
    ensures 2 * inside <= mass && squares <= mass * mass
  {
    inside, squares := Inside(g, m, g.Size()), Squares(g, m, g.order);
    InsideWithinWeight(g, m, g.Size());
    Handshake(g);
    SquaresWithinTotals(g, m, g.order);
    TotalsAreMass(g, m, g.order);
  }

  lemma PhiRange(mass: nat, inside: nat, squares: nat)
    requires 2 * inside <= mass && squares <= mass * mass
    ensures -(mass * mass) <= 2 * mass * inside - squares <= mass * mass
  {
  }

  /** The potential stays between minus and plus the squared mass for every labelling. */
  lemma PhiBounded(g: Graph, m: Labels, mass: nat)
    requires Labelling(g, m) && mass == Mass(g, g.order)
    ensures -(mass * mass) <= Phi(g, m) <= mass * mass
  {
    var inside, squares := PhiTerms(g, m, mass);
    PhiRange(mass, inside, squares);
  }
}
