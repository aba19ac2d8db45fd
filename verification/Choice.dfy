/** Which of several candidates a visit takes: the first of the best, without naming the scan. */
module Choice {
  import opened PairGraph
  import opened Modularity
  import opened LocalMoving
  import opened Ascent

  /** A label that `v` could carry after a visit. */
  ghost predicate Candidate(r: Rule, m: Labels, v: nat, c: nat)
    requires Labelling(r.g, m) && v < r.g.order
  {
    c == m[v] || Neighbouring(r.g, m, v, c)
  }

  /** A wallet that changes its label scores strictly more there than at every neighbouring label below:
      of equal candidates the first is taken. */
  lemma {:induction false} FirstOfEquals(r: Rule, m: Labels, v: nat, k: nat)
    requires r.Valid() && Labelling(r.g, m) && v < r.g.order && k <= r.g.order
    ensures var b := Best(r, m, v, k);
            b != m[v] ==>
              forall c :: 0 <= c < b && Neighbouring(r.g, m, v, c) ==> r.score(m, v, c) < r.score(m, v, b)
  {
    if k > 0 {
      FirstOfEquals(r, m, v, k - 1);
      BestDominates(r, m, v, k - 1);
    }
  }

  /** Of the labels the wallet could carry, any two score the same or differ by more than the tolerance. */
  ghost predicate ScoresApart(r: Rule, m: Labels, v: nat)
    requires Labelling(r.g, m) && v < r.g.order
  {
    forall c: nat, d: nat :: Candidate(r, m, v, c) && Candidate(r, m, v, d) && r.score(m, v, c) < r.score(m, v, d) ==>
      r.score(m, v, c) + r.eps < r.score(m, v, d)
  }

  /** `b` is the old label, and no other scores more; or it scores more than the old one, no less than any
      other, and more than any other below it. */
  ghost predicate FirstBest(r: Rule, m: Labels, v: nat, b: nat)
    requires Labelling(r.g, m) && v < r.g.order
  {
    if b == m[v] then forall c: nat :: Neighbouring(r.g, m, v, c) ==> r.score(m, v, c) <= r.score(m, v, b)
    else
      && Neighbouring(r.g, m, v, b) && r.score(m, v, b) > r.score(m, v, m[v])
      && forall c: nat :: Neighbouring(r.g, m, v, c) ==>
           r.score(m, v, c) <= r.score(m, v, b) && (c < b ==> r.score(m, v, c) < r.score(m, v, b))
  }

  lemma OneFirstBest(r: Rule, m: Labels, v: nat, b: nat, d: nat)
    requires Labelling(r.g, m) && v < r.g.order && FirstBest(r, m, v, b) && FirstBest(r, m, v, d)
    ensures b == d
  {
  }

  /** Where scores are equal or more than the tolerance apart, a visit gives its wallet exactly the first
      best label: the old one if none exceeds it, or else the smallest of the greatest score. */
  lemma VisitTakesFirstBest(r: Rule, m: Labels, v: nat, b: nat)
    requires r.Valid() && Labelling(r.g, m) && v < r.g.order && ScoresApart(r, m, v)
    ensures Visit(r, m, v)[v] == b <==> FirstBest(r, m, v, b)
  {
    var best := Best(r, m, v, r.g.order);
    BestDominates(r, m, v, r.g.order);
    FirstOfEquals(r, m, v, r.g.order);
    assert Candidate(r, m, v, best) && Candidate(r, m, v, m[v]);
    forall c: nat | Neighbouring(r.g, m, v, c) ensures c < r.g.order && r.score(m, v, c) <= r.score(m, v, best) {
      assert Candidate(r, m, v, c);
    }
    assert FirstBest(r, m, v, best);
    if FirstBest(r, m, v, b) {
      OneFirstBest(r, m, v, b, best);
    }
  }

  // ----- modularity -----

  lemma Larger(w: real, x: real, y: real)
    requires w > 0.0 && x <= y
    ensures w * x <= w * y && (x < y ==> w * x < w * y)
  {
  }

  lemma Whole(x: real, y: real, n: int)
    requires x == n as real && x > 0.0 && y < 1.0
    ensures x > y
  {
    assert n > 0;
  }

  lemma Exceeds(w: real, t: real, n: int, eps: real, quantum: real)
    requires w > 0.0 && t > 0.0 && w * t == n as real && quantum == w * eps && quantum < 1.0
    ensures t > eps
  {
    var x := w * t;
    assert x > 0.0 by {
      Larger(w, 0.0, t);
    }
    Whole(x, quantum, n);
    if t <= eps {
      Larger(w, t, eps);
    }
  }

  lemma Difference(w: real, x: real, y: real, a: int, b: int)
    requires w * x == a as real && w * y == b as real
    ensures w * (y - x) == (b - a) as real
  {
  }

  lemma ScaledApart(x: real, y: real, a: int, b: int, mass: nat, eps: real, quantum: real)
    requires mass as real * x == a as real && mass as real * y == b as real && x < y
    requires mass > 0 && quantum == mass as real * eps && quantum < 1.0
    ensures x + eps < y
  {
    Difference(mass as real, x, y, a, b);
    Exceeds(mass as real, y - x, b - a, eps, quantum);
  }

  /** Modularity scores are whole multiples of one over the mass, so a tolerance below that never decides. */
  lemma ScoresDifferByMore(g: Graph, m: Labels, v: nat, c: nat, d: nat, mass: nat, eps: real, quantum: real)
    returns (x: real, y: real)
    requires Labelling(g, m) && v < g.order && mass == Mass(g, g.order) && mass > 0
    requires quantum == mass as real * eps && quantum < 1.0
    ensures x == Score(g, m, v, c) && y == Score(g, m, v, d)
    ensures x < y ==> x + eps < y
  {
    var a, b;
    x, a := ScoreIsScaled(g, m, v, c, mass);
    y, b := ScoreIsScaled(g, m, v, d, mass);
    if x < y {
      ScaledApart(x, y, a, b, mass, eps, quantum);
    }
  }

  lemma {:induction false} CandidatesNeedMass(g: Graph, m: Labels, v: nat, c: nat)
    requires Labelling(g, m) && v < g.order && Neighbouring(g, m, v, c)
    ensures Mass(g, g.order) > 0
  {
    MassOfPairs(g);
  }

  lemma GreedyScore(g: Graph, r: Rule, m: Labels, v: nat, c: nat, x: real)
    requires Labelling(g, m) && v < g.order && r == Greedy(g, r.eps) && x == Score(g, m, v, c)
    ensures r.score(m, v, c) == x
  {
  }

  lemma GreedyApart(g: Graph, r: Rule, m: Labels, v: nat, c: nat, d: nat, mass: nat, quantum: real)
    requires Labelling(g, m) && v < g.order && r == Greedy(g, r.eps) && mass == Mass(g, g.order) && mass > 0
    requires quantum == mass as real * r.eps && quantum < 1.0
    ensures r.score(m, v, c) < r.score(m, v, d) ==> r.score(m, v, c) + r.eps < r.score(m, v, d)
  {
    var x, y := ScoresDifferByMore(g, m, v, c, d, mass, r.eps, quantum);
    GreedyScore(g, r, m, v, c, x);
    GreedyScore(g, r, m, v, d, y);
  }

  lemma CandidatesDiffer(r: Rule, m: Labels, v: nat, c: nat, d: nat)
    requires Labelling(r.g, m) && v < r.g.order && Candidate(r, m, v, c) && Candidate(r, m, v, d) && c != d
    ensures Mass(r.g, r.g.order) > 0
  {
    if c == m[v] {
      CandidatesNeedMass(r.g, m, v, d);
    } else {
      CandidatesNeedMass(r.g, m, v, c);
    }
  }

  lemma ModularityApart(g: Graph, r: Rule, m: Labels, v: nat, mass: nat, quantum: real)
    requires Labelling(g, m) && v < g.order && r == Greedy(g, r.eps) && mass == Mass(g, g.order)
    requires quantum == mass as real * r.eps && quantum < 1.0
    ensures ScoresApart(r, m, v)
  {
    forall c: nat, d: nat | Candidate(r, m, v, c) && Candidate(r, m, v, d) && r.score(m, v, c) < r.score(m, v, d)
      ensures r.score(m, v, c) + r.eps < r.score(m, v, d)
    {
      CandidatesDiffer(r, m, v, c, d);
      GreedyApart(g, r, m, v, c, d, mass, quantum);
    }
  }

  /** While the mass times the tolerance is below one, every visit of every run takes the first best label. */
  lemma GreedyTakesFirstBest(g: Graph, r: Rule, m: Labels, v: nat, b: nat, mass: nat, quantum: real)
    requires Labelling(g, m) && v < g.order && r == Greedy(g, r.eps) && r.eps >= 0.0 && mass == Mass(g, g.order)
    requires quantum == mass as real * r.eps && quantum < 1.0
    ensures Visit(r, m, v)[v] == b <==> FirstBest(r, m, v, b)
  {
    ModularityApart(g, r, m, v, mass, quantum);
    VisitTakesFirstBest(r, m, v, b);
  }
}
