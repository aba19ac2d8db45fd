/** Market history: the ordering check on arrival, and the drawn viewport in exact integers. */
module Chart {
  import opened Results
  import opened Decimal
  import opened Ordering
  import opened EntryPages

  const SCALE: nat := 1000000

  /** Twenty seconds in nanoseconds. */
  const LEEWAY: int := 20000000000

  datatype Lifecycle = Active | Completed | Migrated

  /** A boundary, a time and an amount are the values of their decimal texts. */
  datatype Point = Point(boundary: nat, time: nat, cap: nat, lifecycle: Lifecycle) {
    predicate Ended() { !lifecycle.Active? }
  }

  // ----- arrival -----

  /** Boundaries rise, times never fall, and a market that has ended stays ended. */
  predicate Continues(x: Point, y: Point) {
    x.boundary < y.boundary && x.time <= y.time && (x.Ended() ==> y.Ended())
  }

  ghost predicate Ordered(points: seq<Point>) {
    Ascends(points, None, Continues)
  }

  lemma OrderedMeans(points: seq<Point>)
    ensures Ordered(points) <==>
            forall i, j :: 0 <= i < j < |points| ==>
              && points[i].boundary < points[j].boundary && points[i].time <= points[j].time
              && (points[i].lifecycle != Active ==> points[j].lifecycle != Active)
  {
    if Ordered(points) {
      forall i, j | 0 <= i < j < |points| ensures Continues(points[i], points[j]) {
        AscendsAt(points, None, Continues, i, j);
      }
    }
  }

  method CheckOrder(points: seq<Point>) returns (ok: bool)
    ensures ok <==> Ordered(points)
    ensures ok <==> forall i, j :: 0 <= i < j < |points| ==>
                      && points[i].boundary < points[j].boundary && points[i].time <= points[j].time
                      && (points[i].lifecycle != Active ==> points[j].lifecycle != Active)
  {
    OrderedMeans(points);
    var prior: int, time: int, inactive := -1, -1, false;
    for k := 0 to |points|
      invariant Ordered(points[..k])
      invariant k == 0 ==> prior == -1 && time == -1 && !inactive
      invariant k > 0 ==> prior == points[k - 1].boundary && time == points[k - 1].time
      invariant k > 0 ==> inactive == points[k - 1].Ended()
    {
      AscendsStep(points, None, Continues, k);
      var boundary, next := points[k].boundary, points[k].time;
      if boundary <= prior || next < time {
        return false;
      }
      if inactive && !points[k].Ended() {
        return false;
      }
      inactive := points[k].Ended();
      prior, time := boundary, next;
    }
    assert points[..|points|] == points;
    ok := true;
  }

  // ----- the line -----

  /** Index of the first point with the property, or the length. */
  function First(points: seq<Point>, holds: Point -> bool): (n: nat)
    ensures n <= |points|
    ensures n < |points| ==> holds(points[n])
    ensures forall i :: 0 <= i < n ==> !holds(points[i])
  {
    if points == [] then 0 else if holds(points[0]) then 0 else 1 + First(points[1..], holds)
  }

  /** Points from just before the first in the time window to the first after it; a search that finds
      nothing sets no bound. */
  function Window(points: seq<Point>, before: int, after: int): seq<Point> {
    var first, last := First(points, (p: Point) => p.time >= before), First(points, (p: Point) => p.time > after);
    var lo := if first == |points| || first == 0 then 0 else first - 1;
    var hi := if last == |points| then |points| else last + 1;
    if lo < hi then points[lo..hi] else []
  }

  lemma TimesAscend(points: seq<Point>, i: nat, j: nat)
    requires Ordered(points) && i <= j < |points|
    ensures points[i].time <= points[j].time
  {
    if i < j {
      AscendsAt(points, None, Continues, i, j);
    }
  }

  /** In an accepted history the first point with the property is found by comparing times. */
  lemma FirstAt(points: seq<Point>, bound: int, i: nat)
    requires Ordered(points) && i < |points|
    ensures First(points, (p: Point) => p.time >= bound) <= i <==> points[i].time >= bound
    ensures First(points, (p: Point) => p.time > bound) <= i <==> points[i].time > bound
  {
    var a, b := First(points, (p: Point) => p.time >= bound), First(points, (p: Point) => p.time > bound);
    if a <= i {
      TimesAscend(points, a, i);
    }
    if b <= i {
      TimesAscend(points, b, i);
    }
  }

  /** Point `i` is in view: neither the next point is too early nor the one before too late. Where no point
      reaches the window, the search for the first sets no bound. */
  predicate InView(points: seq<Point>, before: int, after: int, i: nat)
    requires i < |points|
  {
    && (points[|points| - 1].time >= before && i + 1 < |points| ==> points[i + 1].time >= before)
    && (i > 0 ==> points[i - 1].time <= after)
  }

  lemma LowEnd(points: seq<Point>, before: int, first: nat, i: nat)
    requires i < |points| && first <= |points|
    requires forall k :: 0 <= k < |points| ==> (first <= k <==> points[k].time >= before)
    ensures (if first == |points| || first == 0 then 0 else first - 1) <= i
            <==> (points[|points| - 1].time >= before && i + 1 < |points| ==> points[i + 1].time >= before)
  {
  }

  lemma HighEnd(points: seq<Point>, after: int, last: nat, i: nat)
    requires i < |points| && last <= |points|
    requires forall k :: 0 <= k < |points| ==> (last <= k <==> points[k].time > after)
    ensures i < (if last == |points| then |points| else last + 1) <==> (i > 0 ==> points[i - 1].time <= after)
  {
  }

  /** The window of an accepted history holds exactly the points in view, in order: those in the window of time,
      the last one before it and the first one after it; all up to there, where none comes late enough. */
  lemma WindowHolds(points: seq<Point>, before: int, after: int) returns (lo: nat, hi: nat)
    requires Ordered(points)
    ensures lo <= hi <= |points| && Window(points, before, after) == points[lo..hi]
    ensures forall i :: 0 <= i < |points| ==> (lo <= i < hi <==> InView(points, before, after, i))
  {
    var first, last := First(points, (p: Point) => p.time >= before), First(points, (p: Point) => p.time > after);
    lo := if first == |points| || first == 0 then 0 else first - 1;
    hi := if last == |points| then |points| else last + 1;
    forall k | 0 <= k < |points|
      ensures (first <= k <==> points[k].time >= before) && (last <= k <==> points[k].time > after)
    {
      FirstAt(points, before, k);
      FirstAt(points, after, k);
    }
    forall i | 0 <= i < |points| ensures lo <= i < hi <==> InView(points, before, after, i) {
      LowEnd(points, before, first, i);
      HighEnd(points, after, last, i);
    }
    if lo >= hi {
      lo, hi := 0, 0;
    }
  }

  /** The points of the viewport: around the trade, twenty seconds on both sides of the first and last marker. */
  function Retained(points: seq<Point>, markers: seq<Point>, aroundTrade: bool): seq<Point>
    requires markers != []
  {
    if aroundTrade then Window(points, markers[0].time - LEEWAY, markers[|markers| - 1].time + LEEWAY) else points
  }

  /** Around the trade, the viewport is a stretch of the history that holds every point from twenty seconds
      before the first marker to twenty seconds after the last, and no point whose neighbour on the inner side
      lies outside. */
  lemma RetainedHolds(points: seq<Point>, markers: seq<Point>, aroundTrade: bool) returns (lo: nat, hi: nat)
    requires Ordered(points) && markers != []
    ensures lo <= hi <= |points| && Retained(points, markers, aroundTrade) == points[lo..hi]
    ensures !aroundTrade ==> lo == 0 && hi == |points|
    ensures var before, after := markers[0].time - 20000000000, markers[|markers| - 1].time + 20000000000;
            aroundTrade ==>
              forall i :: 0 <= i < |points| ==>
                && (lo <= i < hi <==> InView(points, before, after, i))
                && (before <= points[i].time <= after ==> lo <= i < hi)
  {
    if aroundTrade {
      var before, after := markers[0].time - LEEWAY, markers[|markers| - 1].time + LEEWAY;
      lo, hi := WindowHolds(points, before, after);
      forall i | 0 <= i < |points| && before <= points[i].time <= after ensures InView(points, before, after, i) {
        if i + 1 < |points| {
          TimesAscend(points, i, i + 1);
        }
        if i > 0 {
          TimesAscend(points, i - 1, i);
        }
      }
    } else {
      lo, hi := 0, |points|;
    }
  }

  function UpTo(points: seq<Point>, bound: nat): seq<Point> {
    if points == [] then []
    else (if points[0].boundary <= bound then [points[0]] else []) + UpTo(points[1..], bound)
  }

  /** The drawn part of `shown`: nothing past the point where the market ended. */
  function Line(all: seq<Point>, shown: seq<Point>): seq<Point> {
    var terminal := First(all, (p: Point) => p.Ended());
    if terminal == |all| then shown else UpTo(shown, all[terminal].boundary)
  }

  lemma InOrder(points: seq<Point>, i: nat, j: nat)
    requires Ordered(points) && i < |points| && j < |points|
    ensures points[i].boundary < points[j].boundary <==> i < j
    ensures i < j && points[i].Ended() ==> points[j].Ended()
  {
    if i < j {
      AscendsAt(points, None, Continues, i, j);
    } else if j < i {
      AscendsAt(points, None, Continues, j, i);
    }
  }

  lemma {:induction false} UpToNothing(points: seq<Point>, bound: nat)
    requires forall i :: 0 <= i < |points| ==> points[i].boundary > bound
    ensures UpTo(points, bound) == []
  {
    if points != [] {
      UpToNothing(points[1..], bound);
    }
  }

  lemma {:induction false} UpToIsPrefix(points: seq<Point>, bound: nat) returns (n: nat)
    requires Ordered(points)
    ensures n <= |points| && UpTo(points, bound) == points[..n]
    ensures forall i :: 0 <= i < |points| ==> (points[i].boundary <= bound <==> i < n)
  {
    if points == [] {
      n := 0;
    } else if points[0].boundary <= bound {
      AscendsSlice(points, None, Continues, 1, |points|);
      var m := UpToIsPrefix(points[1..], bound);
      assert forall i :: 0 < i < |points| ==> points[i] == points[1..][i - 1];
      assert points[..m + 1] == [points[0]] + points[1..][..m];
      n := m + 1;
    } else {
      forall i | 0 <= i < |points| ensures points[i].boundary > bound {
        InOrder(points, 0, i);
      }
      UpToNothing(points, bound);
      n := 0;
    }
  }

  lemma PrefixOfStretch(all: seq<Point>, lo: nat, hi: nat, m: nat)
    requires lo <= hi <= |all| && m <= hi - lo
    ensures all[lo..hi][..m] == all[lo..lo + m]
  {
  }

  /** The drawn line of any stretch of an accepted history is the stretch up to the point where the market
      ended: only its last point can lie past the end, and nothing is left out before. */
  lemma LineEndsWithMarket(all: seq<Point>, lo: nat, hi: nat) returns (n: nat)
    requires Ordered(all) && lo <= hi <= |all|
    ensures lo <= n <= hi && Line(all, all[lo..hi]) == all[lo..n]
    ensures forall i :: lo <= i < n - 1 ==> !all[i].Ended()
    ensures n < hi ==> all[n].Ended()
  {
    var terminal := First(all, (p: Point) => p.Ended());
    var shown := all[lo..hi];
    if terminal == |all| {
      n := hi;
    } else {
      var end := all[terminal];
      AscendsSlice(all, None, Continues, lo, hi);
      var m := UpToIsPrefix(shown, end.boundary);
      n := lo + m;
      PrefixOfStretch(all, lo, hi, m);
      if m > 0 {
        assert shown[m - 1] == all[n - 1];
        InOrder(all, terminal, n - 1);
      }
      if n < hi {
        assert shown[m] == all[n];
        InOrder(all, terminal, n);
      }
    }
  }

  // ----- the vertical scale -----

  function Least(amounts: seq<nat>): nat
    requires amounts != []
  {
    if |amounts| == 1 then amounts[0]
    else
      var m := Least(amounts[1..]);
      if amounts[0] < m then amounts[0] else m
  }

  function Greatest(amounts: seq<nat>): nat
    requires amounts != []
  {
    if |amounts| == 1 then amounts[0]
    else
      var m := Greatest(amounts[1..]);
      if amounts[0] > m then amounts[0] else m
  }

  lemma {:induction false} Extremes(amounts: seq<nat>, v: nat)
    requires v in amounts
    ensures Least(amounts) <= v <= Greatest(amounts)
  {
    if |amounts| > 1 {
      if v != amounts[0] {
        Extremes(amounts[1..], v);
      } else {
        Extremes(amounts[1..], amounts[1]);
      }
    }
  }

  lemma {:induction false} ExtremesAttained(amounts: seq<nat>)
    requires amounts != []
    ensures Least(amounts) in amounts && Greatest(amounts) in amounts
  {
    if |amounts| > 1 {
      ExtremesAttained(amounts[1..]);
    }
  }

  datatype Range = Range(low: nat, high: nat)

  /** A twentieth of the spread, or of the amount where there is no spread, is added on both sides. */
  function AutoRange(amounts: seq<nat>): Range
    requires amounts != []
  {
    var minimum, maximum := Least(amounts), Greatest(amounts);
    var twentieth := (if maximum != minimum then maximum - minimum else maximum) / 20;
    var padding := if twentieth == 0 then 1 else twentieth;
    Range(if minimum > padding then minimum - padding else 0, maximum + padding)
  }

  /** Never empty, and every amount lies inside: strictly below the top, and strictly above the bottom
      unless the bottom is zero. */
  lemma RangeHolds(amounts: seq<nat>)
    requires amounts != []
    ensures var r := AutoRange(amounts);
            && r.low < r.high
            && forall v :: v in amounts ==> r.low <= v < r.high && (r.low == v ==> r.low == 0)
  {
    Extremes(amounts, amounts[0]);
    forall v | v in amounts ensures Least(amounts) <= v <= Greatest(amounts) {
      Extremes(amounts, v);
    }
  }

  /** The padding below and above is one twentieth of the spread rounded down, of the amount itself where all
      amounts are equal, and one where that leaves nothing; the bottom never falls below zero. */
  lemma RangePads(amounts: seq<nat>) returns (low: nat, high: nat, padding: nat)
    requires amounts != []
    ensures low in amounts && high in amounts && forall v :: v in amounts ==> low <= v <= high
    ensures var spread := if low < high then high - low else high;
            if spread < 20 then padding == 1 else 20 * padding <= spread < 20 * padding + 20
    ensures AutoRange(amounts).high == high + padding
    ensures AutoRange(amounts).low == 0 || AutoRange(amounts).low + padding == low
    ensures AutoRange(amounts).low == 0 <==> low <= padding
  {
    ExtremesAttained(amounts);
    low, high := Least(amounts), Greatest(amounts);
    forall v | v in amounts ensures low <= v <= high {
      Extremes(amounts, v);
    }
    padding := AutoRange(amounts).high - high;
  }

  function Scale(r: Range, v: nat): nat
    requires r.low <= v && r.low < r.high
  {
    (v - r.low) * SCALE / (r.high - r.low)
  }

  /** Division that truncates toward zero. */
  function Quotient(a: int, b: nat): int
    requires b > 0
  {
    if a >= 0 then a / b else -(-a / b)
  }

  function AtTick(r: Range, tick: int): int
    requires r.low < r.high
  {
    r.low + Quotient(tick * (r.high - r.low), SCALE)
  }

  lemma Division(a: nat, b: nat, q: nat)
    requires b > 0 && q == a / b
    ensures q * b <= a < q * b + b
  {
  }

  lemma Product(a: nat, b: nat, c: nat)
    requires a <= b
    ensures a * c <= b * c
  {
  }

  lemma DivisionMonotone(a: nat, c: nat, b: nat)
    requires b > 0 && a <= c
    ensures a / b <= c / b
  {
    var q, s := a / b, c / b;
    Division(a, b, q);
    Division(c, b, s);
    if s < q {
      Product(s + 1, q, b);
    }
  }

  /** Amounts keep their order on the scale and stay on it. */
  lemma ScaleKeepsOrder(r: Range, v: nat, w: nat)
    requires r.low <= v <= w < r.high
    ensures Scale(r, v) <= Scale(r, w) < SCALE
  {
    var x, y, d := v - r.low, w - r.low, r.high - r.low;
    DivisionMonotone(x * SCALE, y * SCALE, d);
    Division(y * SCALE, d, Scale(r, w));
    if Scale(r, w) >= SCALE {
      Product(SCALE, Scale(r, w), d);
    }
  }

  /** The amount shown at an amount's own tick is not above it, and below it by less than one unit of the
      scale and one unit of the amount. */
  lemma TickOfScale(r: Range, v: nat)
    requires r.low <= v < r.high
    ensures var shown := AtTick(r, Scale(r, v));
            r.low <= shown <= v && SCALE * (v - shown) < r.high - r.low + SCALE
  {
  }

  /** Ticks keep their order, below zero as well. */
  lemma TicksKeepOrder(r: Range, t: int, u: int)
    requires r.low < r.high && t <= u
    ensures AtTick(r, t) <= AtTick(r, u)
  {
    var d := r.high - r.low;
    assert u * d == t * d + (u - t) * d && (u - t) * d >= 0;
    if t * d >= 0 {
      DivisionMonotone(t * d, u * d, SCALE);
    } else if u * d < 0 {
      DivisionMonotone(-(u * d), -(t * d), SCALE);
    }
  }

  /** A tick is read back with the fraction cut off, below zero as well. */
  lemma TickTruncates(r: Range, tick: int) returns (q: nat, n: nat)
    requires r.low < r.high
    ensures n as int == (if tick >= 0 then tick else -tick) * (r.high - r.low)
    ensures q * 1000000 <= n < q * 1000000 + 1000000
    ensures AtTick(r, tick) == if tick >= 0 then r.low + q else r.low - q
  {
    var d := r.high - r.low;
    var size: nat := if tick >= 0 then tick else -tick;
    Product(0, size, d);
    n := size * d;
    assert tick >= 0 ==> tick * d == n;
    assert tick < 0 ==> tick * d == 0 - n;
    q := n / SCALE;
    Division(n, SCALE, q);
  }

  function Caps(points: seq<Point>): seq<nat> {
    seq(|points|, i requires 0 <= i < |points| => points[i].cap)
  }

  /** Every drawn point and marker is on the scale, in the order of its amount, and reads back at its own
      height as at most its amount. */
  lemma DrawnOnScale(line: seq<Point>, markers: seq<Point>, p: Point, q: Point)
    requires markers != [] && p in line + markers && q in line + markers && p.cap <= q.cap
    ensures var r := AutoRange(Caps(line + markers));
            && r.low < r.high && r.low <= p.cap && r.low <= q.cap
            && Scale(r, p.cap) <= Scale(r, q.cap) < SCALE
            && AtTick(r, Scale(r, p.cap)) <= p.cap
  {
    var all := line + markers;
    var i :| 0 <= i < |all| && all[i] == p;
    var j :| 0 <= j < |all| && all[j] == q;
    assert Caps(all)[i] == p.cap && Caps(all)[j] == q.cap;
    assert p.cap in Caps(all) && q.cap in Caps(all);
    RangeHolds(Caps(all));
    ScaleKeepsOrder(AutoRange(Caps(all)), p.cap, q.cap);
    TickOfScale(AutoRange(Caps(all)), p.cap);
  }

  // ----- ranks -----

  function Worth(text: string): nat {
    if Unsigned(text) then Amount(text) else 0
  }

  predicate LowerText(x: string, y: string) { Worth(x) < Worth(y) }

  /** Each text once, in order of first appearance. */
  function Unique(texts: seq<string>): seq<string> {
    if texts == [] then []
    else
      var u := Unique(texts[..|texts| - 1]);
      if texts[|texts| - 1] in u then u else u + [texts[|texts| - 1]]
  }

  lemma {:induction false} UniqueOnce(texts: seq<string>)
    ensures Distinct(Unique(texts))
    ensures forall t :: t in Unique(texts) <==> t in texts
  {
    if texts != [] {
      var init, last := texts[..|texts| - 1], texts[|texts| - 1];
      assert texts == init + [last];
      UniqueOnce(init);
      DistinctAppend(Unique(init), last);
    }
  }

  predicate ZeroTwice(texts: seq<string>) {
    "0" in texts && "-0" in texts
  }

  /** The orders that sorting may give; a text's rank is its position. The comparator never reports
      equality, so the order is only fixed where no two texts are worth the same. */
  ghost predicate MayRank(texts: seq<string>, r: seq<string>) {
    multiset(r) == multiset(Unique(texts)) && (ZeroTwice(texts) || Sorted(r, LowerText))
  }

  lemma RankedOnce(texts: seq<string>, r: seq<string>)
    requires MayRank(texts, r)
    ensures Distinct(r) && forall t :: t in r <==> t in texts
  {
    UniqueOnce(texts);
    DistinctPermutes(Unique(texts), r);
    SameItems(Unique(texts), r);
  }

  /** A stable sort gives such an order. */
  lemma StableSortRanks(texts: seq<string>)
    ensures MayRank(texts, Sort(Unique(texts), LowerText))
  {
    SortSorts(Unique(texts), LowerText);
  }

  lemma SameWorth(x: string, y: string)
    requires Unsigned(x) && Unsigned(y) && x != y && Worth(x) == Worth(y)
    ensures (x == "0" && y == "-0") || (x == "-0" && y == "0")
  {
    assert Print(0) == "0";
    if x != "-0" {
      ValuePrints(x);
    }
    if y != "-0" {
      ValuePrints(y);
    }
  }

  /** Ranks number the boundaries, each once, in strictly rising order exactly when zero is not spelled both
      ways. */
  lemma RanksRise(texts: seq<string>, r: seq<string>)
    requires MayRank(texts, r) && forall t :: t in texts ==> Unsigned(t)
    ensures (forall i, j :: 0 <= i < j < |r| ==> Worth(r[i]) < Worth(r[j])) <==> !ZeroTwice(texts)
    ensures Distinct(r) && forall t :: t in r <==> t in texts
  {
    RankedOnce(texts, r);
    if ZeroTwice(texts) {
      var i :| 0 <= i < |r| && r[i] == "0";
      var j :| 0 <= j < |r| && r[j] == "-0";
      assert Canonical("0") && Unsigned("0") && "0"[..0] == "" && Worth("0") == 0;
      assert Worth("-0") == 0;
      assert i < j || j < i;
    } else {
      forall i, j | 0 <= i < j < |r| ensures Worth(r[i]) < Worth(r[j]) {
        assert r[i] in texts && r[j] in texts && !LowerText(r[j], r[i]);
        if Worth(r[i]) == Worth(r[j]) {
          SameWorth(r[i], r[j]);
        }
      }
    }
  }
}
