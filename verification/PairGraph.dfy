/** The weighted pair graph that every display operation works on: wallets are the indices below
    `order`, and pair `e` joins `left[e]` to `right[e]` with `weight[e]` shared mints. */
module PairGraph {

  datatype Graph = Graph(order: nat, left: seq<nat>, right: seq<nat>, weight: seq<nat>) {

    /** What the construction loop guarantees: known ends, no self pair, positive weight. */
    ghost predicate Valid() {
      && |left| == |right| == |weight|
      && forall e :: 0 <= e < |weight| ==> left[e] < order && right[e] < order && left[e] != right[e] && weight[e] >= 1
    }

    function Size(): nat { |weight| }

    predicate Touches(e: nat, v: nat)
      requires |left| == |right| == |weight| && e < |weight|
    {
      left[e] == v || right[e] == v
    }

    /** The end of a touching pair that is not `v`. */
    function Other(e: nat, v: nat): nat
      requires |left| == |right| == |weight| && e < |weight|
    {
      if left[e] == v then right[e] else left[e]
    }
  }

  /** Weighted degree of `v` over the first `k` pairs. */
  function Strength(g: Graph, v: nat, k: nat): nat
    requires g.Valid() && k <= g.Size()
  {
    if k == 0 then 0
    else Strength(g, v, k - 1) + if g.Touches(k - 1, v) then g.weight[k - 1] else 0
  }

  /** The pairs below `k` that touch `v`, in ascending order. */
  function Incident(g: Graph, v: nat, k: nat): (es: seq<nat>)
    requires g.Valid() && k <= g.Size()
    ensures forall e :: e in es <==> 0 <= e < k && g.Touches(e, v)
    ensures forall i, j :: 0 <= i < j < |es| ==> es[i] < es[j]
  {
    if k == 0 then []
    else
      var es := Incident(g, v, k - 1);
      assert forall i :: 0 <= i < |es| ==> es[i] in es;
      if g.Touches(k - 1, v) then es + [k - 1] else es
  }

  /** Sum of the weights of the listed pairs. */
  function Listed(g: Graph, es: seq<nat>): nat
    requires forall i :: 0 <= i < |es| ==> es[i] < |g.weight|
  {
    if es == [] then 0
    else
      var last := es[|es| - 1];
      Listed(g, es[..|es| - 1]) + g.weight[last]
  }

  lemma ListedStep(g: Graph, before: seq<nat>, es: seq<nat>, e: nat, touches: bool)
    requires e < |g.weight| && forall i :: 0 <= i < |before| ==> before[i] < |g.weight|
    requires es == if touches then before + [e] else before
    ensures forall i :: 0 <= i < |es| ==> es[i] < |g.weight|
    ensures Listed(g, es) == Listed(g, before) + if touches then g.weight[e] else 0
  {
    if touches {
      assert es[..|before|] == before;
    }
  }

  /** A wallet's strength is the weight of the pairs on its list. */
  lemma {:induction false} StrengthIsListed(g: Graph, v: nat, k: nat)
    requires g.Valid() && k <= g.Size()
    ensures forall i :: 0 <= i < |Incident(g, v, k)| ==> Incident(g, v, k)[i] < |g.weight|
    ensures Strength(g, v, k) == Listed(g, Incident(g, v, k))
  {
    if k > 0 {
      StrengthIsListed(g, v, k - 1);
      ListedStep(g, Incident(g, v, k - 1), Incident(g, v, k), k - 1, g.Touches(k - 1, v));
    }
  }

  /** Sum of the weights of the first `k` pairs. */
  function Weight(g: Graph, k: nat): nat
    requires g.Valid() && k <= g.Size()
  {
    if k == 0 then 0 else Weight(g, k - 1) + g.weight[k - 1]
  }

  /** Sum of the strengths of the first `k` wallets. */
  function Mass(g: Graph, k: nat): nat
    requires g.Valid() && k <= g.order
  {
    if k == 0 then 0 else Mass(g, k - 1) + Strength(g, k - 1, g.Size())
  }

  /** Sum over the first `v` wallets of their strength over the first `k` pairs. */
  ghost function Degrees(g: Graph, v: nat, k: nat): nat
    requires g.Valid() && v <= g.order && k <= g.Size()
  {
    if v == 0 then 0 else Degrees(g, v - 1, k) + Strength(g, v - 1, k)
  }

  lemma {:induction false} DegreesStep(g: Graph, v: nat, k: nat)
    requires g.Valid() && v <= g.order && 0 < k <= g.Size()
    ensures Degrees(g, v, k) == Degrees(g, v, k - 1)
                                + (if g.left[k - 1] < v then g.weight[k - 1] else 0)
                                + (if g.right[k - 1] < v then g.weight[k - 1] else 0)
  {
    if v > 0 {
      DegreesStep(g, v - 1, k);
    }
  }

  lemma {:induction false} DegreesEmpty(g: Graph, v: nat)
    requires g.Valid() && v <= g.order
    ensures Degrees(g, v, 0) == 0
  {
    if v > 0 {
      DegreesEmpty(g, v - 1);
    }
  }

  lemma {:induction false} DegreesCountTwice(g: Graph, k: nat)
    requires g.Valid() && k <= g.Size()
    ensures Degrees(g, g.order, k) == 2 * Weight(g, k)
  {
    if k == 0 {
      DegreesEmpty(g, g.order);
    } else {
      DegreesCountTwice(g, k - 1);
      DegreesStep(g, g.order, k);
    }
  }

  lemma {:induction false} DegreesAreMass(g: Graph, v: nat)
    requires g.Valid() && v <= g.order
    ensures Degrees(g, v, g.Size()) == Mass(g, v)
  {
    if v > 0 {
      DegreesAreMass(g, v - 1);
    }
  }

  /** Every pair is counted once at each of its two ends. */
  lemma Handshake(g: Graph)
    requires g.Valid()
    ensures Mass(g, g.order) == 2 * Weight(g, g.Size())
  {
    DegreesAreMass(g, g.order);
    DegreesCountTwice(g, g.Size());
  }
}
