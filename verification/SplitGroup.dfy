/** A run whose stable result holds a group in two pieces. */
module SplitGroup {
  import opened PairGraph
  import opened Modularity
  import opened LocalMoving
  import opened Ascent
  import opened Walks
  import opened Connectivity
  import opened Partition

  /** Six wallets and their pairs 0-2, 0-4, 1-2, 1-5, 2-3 and 2-5. Wallet 2 gathers a group around itself
      and then leaves it for wallet 3. */
  ghost function Example(): Graph {
    Graph(6, [0, 0, 1, 1, 2, 2], [2, 4, 2, 5, 3, 5], [3, 1, 3, 1, 11, 2])
  }

  ghost predicate Pair(g: Graph, e: nat, a: nat, b: nat, w: nat)
    requires g.Valid()
  {
    e < g.Size() && g.left[e] == a && g.right[e] == b && g.weight[e] == w
  }

  ghost predicate Six(g: Graph) {
    && g.Valid() && g.order == 6 && g.Size() == 6
    && Pair(g, 0, 0, 2, 3) && Pair(g, 1, 0, 4, 1) && Pair(g, 2, 1, 2, 3)
    && Pair(g, 3, 1, 5, 1) && Pair(g, 4, 2, 3, 11) && Pair(g, 5, 2, 5, 2)
  }

  lemma ExampleSix()
    ensures Six(Example())
  {
  }

  // ----- sums over the example -----

  function If(b: bool, n: nat): nat { if b then n else 0 }

  function Ties(m: Labels, v: nat, c: nat): nat
    requires |m| == 6
  {
    if v == 0 then If(m[2] == c, 3) + If(m[4] == c, 1)
    else if v == 1 then If(m[2] == c, 3) + If(m[5] == c, 1)
    else if v == 2 then If(m[0] == c, 3) + If(m[1] == c, 3) + If(m[3] == c, 11) + If(m[5] == c, 2)
    else if v == 3 then If(m[2] == c, 11)
    else if v == 4 then If(m[0] == c, 1)
    else If(m[1] == c, 1) + If(m[2] == c, 2)
  }

  function StrengthOf(v: nat): nat {
    if v < 2 then 4 else if v == 2 then 19 else if v == 3 then 11 else if v == 4 then 1 else 3
  }

  function InGroup(m: Labels, c: nat): nat
    requires |m| == 6
  {
    If(m[0] == c, 4) + If(m[1] == c, 4) + If(m[2] == c, 19) + If(m[3] == c, 11) + If(m[4] == c, 1) + If(m[5] == c, 3)
  }

  lemma TiesAre(g: Graph, m: Labels, v: nat, c: nat)
    requires Six(g) && Labelling(g, m) && v < 6
    ensures Tie(g, m, v, c, 6) == Ties(m, v, c)
  {
    assert Tie(g, m, v, c, 0) == 0;
    assert Tie(g, m, v, c, 1) == If(v == 0 && m[2] == c, 3) + If(v == 2 && m[0] == c, 3);
    assert Tie(g, m, v, c, 2) == Tie(g, m, v, c, 1) + If(v == 0 && m[4] == c, 1) + If(v == 4 && m[0] == c, 1);
    assert Tie(g, m, v, c, 3) == Tie(g, m, v, c, 2) + If(v == 1 && m[2] == c, 3) + If(v == 2 && m[1] == c, 3);
    assert Tie(g, m, v, c, 4) == Tie(g, m, v, c, 3) + If(v == 1 && m[5] == c, 1) + If(v == 5 && m[1] == c, 1);
    assert Tie(g, m, v, c, 5) == Tie(g, m, v, c, 4) + If(v == 2 && m[3] == c, 11) + If(v == 3 && m[2] == c, 11);
  }

  lemma StrengthIs(g: Graph, v: nat)
    requires Six(g) && v < 6
    ensures Strength(g, v, 6) == StrengthOf(v)
  {
    assert Strength(g, v, 1) == If(v == 0 || v == 2, 3);
    assert Strength(g, v, 2) == Strength(g, v, 1) + If(v == 0 || v == 4, 1);
    assert Strength(g, v, 3) == Strength(g, v, 2) + If(v == 1 || v == 2, 3);
    assert Strength(g, v, 4) == Strength(g, v, 3) + If(v == 1 || v == 5, 1);
    assert Strength(g, v, 5) == Strength(g, v, 4) + If(v == 2 || v == 3, 11);
  }

  lemma TotalIs(g: Graph, m: Labels, c: nat)
    requires Six(g) && Labelling(g, m)
    ensures Total(g, m, c, 6) == InGroup(m, c)
  {
    forall v | 0 <= v < 6 ensures Total(g, m, c, v + 1) == Total(g, m, c, v) + If(m[v] == c, StrengthOf(v)) {
      StrengthIs(g, v);
    }
    assert Total(g, m, c, 0) == 0;
    assert Total(g, m, c, 0 + 1) == If(m[0] == c, 4);
    assert Total(g, m, c, 1 + 1) == Total(g, m, c, 1) + If(m[1] == c, 4);
    assert Total(g, m, c, 2 + 1) == Total(g, m, c, 2) + If(m[2] == c, 19);
    assert Total(g, m, c, 3 + 1) == Total(g, m, c, 3) + If(m[3] == c, 11);
    assert Total(g, m, c, 4 + 1) == Total(g, m, c, 4) + If(m[4] == c, 1);
    assert Total(g, m, c, 5 + 1) == Total(g, m, c, 5) + If(m[5] == c, 3);
  }

  lemma MassIs(g: Graph)
    requires Six(g)
    ensures Mass(g, 6) == 42
  {
    Handshake(g);
    forall e | 0 <= e < 6 ensures Weight(g, e + 1) == Weight(g, e) + g.weight[e] {
    }
    assert Weight(g, 0) == 0 && Weight(g, 0 + 1) == 3;
    assert Weight(g, 1 + 1) == 4;
    assert Weight(g, 2 + 1) == 7;
    assert Weight(g, 3 + 1) == 8;
    assert Weight(g, 4 + 1) == 19;
    assert Weight(g, 5 + 1) == 21;
  }

  // ----- the run in integers -----

  /** The score times the mass. */
  function Worth(m: Labels, v: nat, c: nat): int
    requires |m| == 6 && v < 6
  {
    42 * Ties(m, v, c) - StrengthOf(v) * (InGroup(m, c) - If(m[v] == c, StrengthOf(v)))
  }

  /** The example under a tolerance too small to decide anything. */
  ghost predicate Fine(r: Rule) {
    Six(r.g) && r == Greedy(r.g, r.eps) && 0.0 <= r.eps < 1.0 / 42.0
  }

  lemma WorthIsScaled(g: Graph, m: Labels, v: nat, c: nat)
    requires Six(g) && Labelling(g, m) && v < 6
    ensures Score(g, m, v, c) * 42.0 == Worth(m, v, c) as real
  {
    TiesAre(g, m, v, c);
    StrengthIs(g, v);
    TotalIs(g, m, c);
    MassIs(g);
    var score, scaled := ScoreIsScaled(g, m, v, c, 42);
  }

  lemma Compare(x: real, y: real, a: int, b: int, eps: real)
    requires x * 42.0 == a as real && y * 42.0 == b as real && 0.0 <= eps < 1.0 / 42.0
    ensures x > y + eps <==> a > b
  {
  }

  predicate Beats(m: Labels, v: nat, b: nat, c: nat)
    requires |m| == 6 && v < 6
  {
    c == b || (c != m[v] && Ties(m, v, c) == 0) || Worth(m, v, b) > Worth(m, v, c)
  }

  /** Group `b` is better for `v` than every other group it could be in. */
  predicate Clear(m: Labels, v: nat, b: nat)
    requires |m| == 6 && v < 6
  {
    && (b == m[v] || Ties(m, v, b) > 0)
    && Beats(m, v, b, 0) && Beats(m, v, b, 1) && Beats(m, v, b, 2)
    && Beats(m, v, b, 3) && Beats(m, v, b, 4) && Beats(m, v, b, 5)
  }

  lemma ClearIsBest(r: Rule, m: Labels, v: nat, b: nat)
    requires Fine(r) && Labelling(r.g, m) && v < 6 && b < 6 && Clear(m, v, b)
    ensures Visit(r, m, v) == m[v := b]
  {
    forall c | 0 <= c < 6
      ensures Neighbouring(r.g, m, v, c) <==> Ties(m, v, c) > 0
      ensures Worth(m, v, b) > Worth(m, v, c) ==> r.score(m, v, b) > r.score(m, v, c) + r.eps
    {
      TiesAre(r.g, m, v, c);
      TiedIffReached(r.g, m, v, c, 6);
      WorthIsScaled(r.g, m, v, c);
      WorthIsScaled(r.g, m, v, b);
      Compare(Score(r.g, m, v, b), Score(r.g, m, v, c), Worth(m, v, b), Worth(m, v, c), r.eps);
    }
    BestIsClear(r, m, v, b, 6);
  }

  const SPLIT: Labels := [2, 2, 3, 3, 2, 2]

  /** The labelling after `k` visits of the first pass. */
  function Stage(k: nat): (m: Labels)
    ensures |m| == 6
  {
    if k == 0 then [0, 1, 2, 3, 4, 5]
    else if k == 1 then [2, 1, 2, 3, 4, 5]
    else if k == 2 then [2, 2, 2, 3, 4, 5]
    else if k <= 4 then [2, 2, 3, 3, 4, 5]
    else if k == 5 then [2, 2, 3, 3, 2, 5]
    else SPLIT
  }

  lemma EarlyVisits()
    ensures Clear(Stage(0), 0, SPLIT[0]) && Clear(Stage(1), 1, SPLIT[1])
  {
    assert InGroup(Stage(0), 0) == 4 && InGroup(Stage(0), 2) == 19 && InGroup(Stage(0), 4) == 1;
    assert InGroup(Stage(1), 1) == 4 && InGroup(Stage(1), 2) == 23 && InGroup(Stage(1), 5) == 3;
  }

  lemma MiddleVisits()
    ensures Clear(Stage(2), 2, SPLIT[2]) && Clear(Stage(3), 3, SPLIT[3])
  {
    assert InGroup(Stage(2), 2) == 27 && InGroup(Stage(2), 3) == 11 && InGroup(Stage(2), 5) == 3;
  }

  lemma LateVisits()
    ensures Clear(Stage(4), 4, SPLIT[4]) && Clear(Stage(5), 5, SPLIT[5])
  {
    assert InGroup(Stage(4), 2) == 8 && InGroup(Stage(4), 4) == 1;
    assert InGroup(Stage(5), 2) == 9 && InGroup(Stage(5), 3) == 30 && InGroup(Stage(5), 5) == 3;
  }

  lemma StillEarly()
    ensures Clear(SPLIT, 0, SPLIT[0]) && Clear(SPLIT, 1, SPLIT[1]) && Clear(SPLIT, 2, SPLIT[2])
  {
    assert InGroup(SPLIT, 2) == 12 && InGroup(SPLIT, 3) == 30;
  }

  lemma StillLate()
    ensures Clear(SPLIT, 3, SPLIT[3]) && Clear(SPLIT, 4, SPLIT[4]) && Clear(SPLIT, 5, SPLIT[5])
  {
    assert InGroup(SPLIT, 2) == 12 && InGroup(SPLIT, 3) == 30;
  }

  lemma StageClear(k: nat)
    requires k < 6
    ensures Clear(Stage(k), k, SPLIT[k])
  {
    if k < 2 {
      EarlyVisits();
    } else if k < 4 {
      MiddleVisits();
    } else {
      LateVisits();
    }
  }

  lemma SplitClear(k: nat)
    requires k < 6
    ensures Clear(SPLIT, k, SPLIT[k])
  {
    if k < 3 {
      StillEarly();
    } else {
      StillLate();
    }
  }

  lemma StageStep(k: nat)
    requires k < 6
    ensures Stage(k)[k := SPLIT[k]] == Stage(k + 1) && SPLIT[k := SPLIT[k]] == SPLIT
  {
  }

  lemma {:induction false} FirstPass(r: Rule, s: Labels, k: nat)
    requires Fine(r) && s == Start(r.g.order) && k <= 6
    ensures Sweep(r, s, k) == Stage(k)
  {
    if k > 0 {
      FirstPass(r, s, k - 1);
      StageClear(k - 1);
      StageStep(k - 1);
      ClearIsBest(r, Stage(k - 1), k - 1, SPLIT[k - 1]);
    }
  }

  lemma {:induction false} SecondPass(r: Rule, m: Labels, k: nat)
    requires Fine(r) && m == SPLIT && k <= 6
    ensures Sweep(r, m, k) == m
  {
    if k > 0 {
      SecondPass(r, m, k - 1);
      SplitClear(k - 1);
      StageStep(k - 1);
      ClearIsBest(r, m, k - 1, SPLIT[k - 1]);
    }
  }

  /** Within the group, a walk from wallet 0 never leaves wallets 0 and 4. */
  lemma {:induction false} StaysInPiece(g: Graph, p: seq<nat>, b: nat)
    requires Six(g) && WalkIn(g, Group(SPLIT, 2), p, 0, b)
    ensures b == 0 || b == 4
  {
    if |p| > 1 {
      var q := p[..|p| - 1];
      forall i | 0 <= i < |q| - 1 ensures Linked(g, q[i], q[i + 1]) {
        assert Linked(g, p[i], p[i + 1]);
      }
      StaysInPiece(g, q, q[|q| - 1]);
      assert Linked(g, p[|p| - 2], p[|p| - 2 + 1]);
    }
  }

  lemma InTwoPieces(g: Graph)
    requires Six(g)
    ensures !JoinedIn(g, Group(SPLIT, 2), 0, 1) && !Together(g, SPLIT)
  {
    forall p | WalkIn(g, Group(SPLIT, 2), p, 0, 1) ensures false {
      StaysInPiece(g, p, 1);
    }
    assert 0 in Group(SPLIT, 2) && 1 in Group(SPLIT, 2);
    assert !Connected(g, Group(SPLIT, 2));
  }

  lemma TwoPasses(r: Rule, m: Labels, p: nat)
    requires Fine(r) && m == SPLIT && Labelling(r.g, m) && p == 1
    requires Run(r, p) == m && Sweep(r, m, r.g.order) == m && Run(r, p - 1) != m
    ensures Progress(r, m, p + 1, true)
  {
    StableIffOptimal(r.g, Run(r, p - 1), r);
    StableIffOptimal(r.g, m, r);
    assert Busy(r, p - 1) && !Busy(r, p);
  }

  /** The loop ends after two passes with a stable result, in which wallets 0, 1, 4 and 5 are one group but
      neither 0 nor 4 is paired with 1 or 5: the wallet that joined them has left. */
  lemma StableGroupInTwoPieces(r: Rule)
    requires r == Greedy(Example(), r.eps) && 0.0 <= r.eps < 1.0 / 42.0
    ensures r.g.Valid() && Progress(r, SPLIT, 2, true) && SPLIT[0] == SPLIT[1] == 2
    ensures !JoinedIn(r.g, Group(SPLIT, 2), 0, 1) && !Together(r.g, SPLIT)
  {
    ExampleSix();
    var s := Start(r.g.order);
    FirstPass(r, s, r.g.order);
    SecondPass(r, SPLIT, r.g.order);
    assert Run(r, 0) == s && Run(r, 1) == SPLIT;
    assert s[0] == 0;
    TwoPasses(r, SPLIT, 1);
    InTwoPieces(r.g);
  }
}
