/** Remembered views: at most eight, the least recently used one making room. */
module ViewMemory {
  import opened Results

  const CAPACITY: nat := 8
  const MAX_ORDER: nat := 5000

  datatype Camera = Camera(x: real, y: real, angle: real, ratio: real)
  datatype Bounds = Bounds(left: real, right: real, bottom: real, top: real)
  datatype View = View(coordinates: seq<real>, camera: Camera, bounds: Option<Bounds>)
  datatype Entry = Entry(key: string, view: View)
  datatype Position = Position(x: real, y: real)

  function Keys(views: seq<Entry>): seq<string> {
    seq(|views|, i requires 0 <= i < |views| => views[i].key)
  }

  function Find(views: seq<Entry>, key: string): Option<View> {
    if views == [] then None else if views[0].key == key then Some(views[0].view) else Find(views[1..], key)
  }

  function Without(views: seq<Entry>, key: string): seq<Entry> {
    if views == [] then [] else (if views[0].key == key then [] else [views[0]]) + Without(views[1..], key)
  }

  function Newest(views: seq<Entry>): seq<Entry> {
    if |views| > CAPACITY then views[|views| - CAPACITY..] else views
  }

  function Flatten(graph: seq<Position>): seq<real> {
    if graph == [] then [] else Flatten(graph[..|graph| - 1]) + [graph[|graph| - 1].x, graph[|graph| - 1].y]
  }

  lemma {:induction false} FlattenAt(graph: seq<Position>, i: nat)
    requires i < |graph|
    ensures |Flatten(graph)| == 2 * |graph|
    ensures Flatten(graph)[2 * i] == graph[i].x && Flatten(graph)[2 * i + 1] == graph[i].y
  {
    FlattenLength(graph);
    if i < |graph| - 1 {
      FlattenAt(graph[..|graph| - 1], i);
    } else {
      FlattenLength(graph[..|graph| - 1]);
    }
  }

  lemma {:induction false} FlattenLength(graph: seq<Position>)
    ensures |Flatten(graph)| == 2 * |graph|
  {
    if graph != [] {
      FlattenLength(graph[..|graph| - 1]);
    }
  }

  datatype Op =
    | Read(key: string, order: nat)
    | Save(key: string, graph: seq<Position>, camera: Camera, bounds: Option<Bounds>)
    | Forget(key: string)
    | Clear

  /** The key that an operation uses, if it succeeds. */
  function Touched(views: seq<Entry>, op: Op): Option<string> {
    match op
    case Read(key, order) =>
      var view := Find(views, key);
      if view.Some? && |view.value.coordinates| == 2 * order then Some(key) else None
    case Save(key, graph, _, _) => if |graph| <= MAX_ORDER then Some(key) else None
    case _ => None
  }

  function Apply(views: seq<Entry>, op: Op): seq<Entry> {
    match op
    case Read(key, order) =>
      if Touched(views, op).None? then views else Without(views, key) + [Entry(key, Find(views, key).value)]
    case Save(key, graph, camera, bounds) =>
      if Touched(views, op).None? then views
      else Newest(Without(views, key) + [Entry(key, View(Flatten(graph), camera, bounds))])
    case Forget(key) => Without(views, key)
    case Clear => []
  }

  /** The object: a map that keeps insertion order. */
  class Memory {
    var views: seq<Entry>

    constructor ()
      ensures views == []
    {
      views := [];
    }

    method Read(key: string, order: nat) returns (r: Option<View>)
      modifies this
      ensures views == Apply(old(views), Op.Read(key, order))
      ensures r == if Touched(old(views), Op.Read(key, order)).Some? then Find(old(views), key) else None
    {
      var view := Find(views, key);
      if view.None? || |view.value.coordinates| != order * 2 {
        return None;
      }
      views := Without(views, key);
      views := views + [Entry(key, view.value)];
      r := view;
    }

    method Save(key: string, graph: seq<Position>, camera: Camera, bounds: Option<Bounds>) returns (thrown: bool)
      modifies this
      ensures views == Apply(old(views), Op.Save(key, graph, camera, bounds))
      ensures thrown <==> |graph| > MAX_ORDER
    {
      if |graph| > MAX_ORDER {
        return true;
      }
      var coordinates := [];
      for i := 0 to |graph|
        invariant coordinates == Flatten(graph[..i]) && views == old(views)
      {
        assert graph[..i + 1][..i] == graph[..i];
        coordinates := coordinates + [graph[i].x, graph[i].y];
      }
      assert graph[..|graph|] == graph;
      views := Without(views, key);
      views := views + [Entry(key, View(coordinates, camera, bounds))];
      ghost var all, n := views, 0;
      while |views| > CAPACITY
        invariant 0 <= n <= |all| && views == all[n..] && (n > 0 ==> |views| >= CAPACITY)
        decreases |views|
      {
        views := views[1..];
        n := n + 1;
      }
      thrown := false;
    }

    method Forget(key: string)
      modifies this
      ensures views == Apply(old(views), Op.Forget(key))
    {
      views := Without(views, key);
    }

    method Clear()
      modifies this
      ensures views == Apply(old(views), Op.Clear)
    {
      views := [];
    }
  }

  // ----- whole histories -----

  function After(ops: seq<Op>): seq<Entry> {
    if ops == [] then [] else Apply(After(ops[..|ops| - 1]), ops[|ops| - 1])
  }

  /** When a key was last used: one more than the index of the operation, zero for never. */
  function LastUse(ops: seq<Op>, key: string): (n: nat)
    ensures n <= |ops|
  {
    if ops == [] then 0
    else
      var init := ops[..|ops| - 1];
      if Touched(After(init), ops[|ops| - 1]) == Some(key) then |ops| else LastUse(init, key)
  }

  type Uses = string -> nat

  function UsesOf(ops: seq<Op>): Uses {
    key => LastUse(ops, key)
  }

  /** Oldest use first, without repetition; every key has been used. */
  ghost predicate Aged(views: seq<Entry>, use: Uses) {
    && (forall i {:trigger use(views[i].key)} :: 0 <= i < |views| ==> use(views[i].key) > 0)
    && (forall i, j {:trigger use(views[i].key), use(views[j].key)} :: 0 <= i < j < |views| ==>
          use(views[i].key) < use(views[j].key))
  }

  /** Removing a key closes its gap. */
  lemma {:induction false} NotThere(views: seq<Entry>, key: string)
    requires forall i :: 0 <= i < |views| ==> views[i].key != key
    ensures Without(views, key) == views && Find(views, key).None?
  {
    if views != [] {
      NotThere(views[1..], key);
    }
  }

  lemma {:induction false} Removed(views: seq<Entry>, key: string) returns (p: nat)
    requires forall i, j :: 0 <= i < j < |views| ==> views[i].key != views[j].key
    ensures p <= |views|
    ensures p == |views| ==> Without(views, key) == views && Find(views, key).None?
    ensures p < |views| ==>
              && views[p].key == key && Without(views, key) == views[..p] + views[p + 1..]
              && Find(views, key) == Some(views[p].view)
    ensures forall i :: 0 <= i < |views| ==> (views[i].key == key <==> i == p)
  {
    if views == [] {
      p := 0;
    } else if views[0].key == key {
      NotThere(views[1..], key);
      p := 0;
    } else {
      var q := Removed(views[1..], key);
      assert forall i :: 0 < i < |views| ==> views[i] == views[1..][i - 1];
      p := q + 1;
    }
  }

  lemma NoRepetition(views: seq<Entry>, use: Uses, i: nat, j: nat)
    requires Aged(views, use) && i < j < |views|
    ensures views[i].key != views[j].key
  {
    assert use(views[i].key) < use(views[j].key);
  }

  /** The place a key is removed from, in an aged list. */
  lemma Place(views: seq<Entry>, use: Uses, key: string) returns (p: nat)
    requires Aged(views, use)
    ensures p <= |views| && forall i :: 0 <= i < |views| ==> (views[i].key == key <==> i == p)
    ensures Without(views, key) == if p == |views| then views else views[..p] + views[p + 1..]
    ensures Find(views, key) == if p == |views| then None else Some(views[p].view)
  {
    forall i, j | 0 <= i < j < |views| ensures views[i].key != views[j].key {
      NoRepetition(views, use, i, j);
    }
    p := Removed(views, key);
  }

  lemma CutHolds(views: seq<Entry>, p: nat, key: string, x: Entry)
    requires p < |views| && forall i :: 0 <= i < |views| ==> (views[i].key == key <==> i == p)
    ensures x in views[..p] + views[p + 1..] <==> x in views && x.key != key
  {
    var rest := views[..p] + views[p + 1..];
    if x in rest {
      var i :| 0 <= i < |rest| && rest[i] == x;
      assert views[if i < p then i else i + 1] == x;
    }
    if x in views && x.key != key {
      var i :| 0 <= i < |views| && views[i] == x;
      assert rest[if i < p then i else i - 1] == x;
    }
  }

  /** What remains after removing a key: the entries of all other keys, in order. */
  lemma Remains(views: seq<Entry>, use: Uses, key: string)
    requires Aged(views, use)
    ensures var rest := Without(views, key);
            && |views| - 1 <= |rest| <= |views|
            && (forall x :: x in rest <==> x in views && x.key != key)
  {
    var p := Place(views, use, key);
    forall x ensures x in Without(views, key) <==> x in views && x.key != key {
      if p < |views| {
        CutHolds(views, p, key, x);
      } else if x in views {
        var i :| 0 <= i < |views| && views[i] == x;
      }
    }
  }

  lemma CutAged(views: seq<Entry>, use: Uses, p: nat)
    requires Aged(views, use) && p < |views|
    ensures Aged(views[..p] + views[p + 1..], use)
  {
  }

  /** It keeps its order, whatever happens to that key's use. */
  lemma RestAged(views: seq<Entry>, use: Uses, next: Uses, key: string)
    requires Aged(views, use) && forall k :: k != key ==> next(k) == use(k)
    ensures Aged(Without(views, key), next)
  {
    var rest := Without(views, key);
    var p := Place(views, use, key);
    if p < |views| {
      CutAged(views, use, p);
    }
    Remains(views, use, key);
    forall i | 0 <= i < |rest| ensures next(rest[i].key) == use(rest[i].key) > 0 {
      assert rest[i] in rest;
    }
    forall i, j | 0 <= i < j < |rest| ensures next(rest[i].key) < next(rest[j].key) {
      assert rest[i] in rest && rest[j] in rest;
    }
  }

  lemma AppendAged(rest: seq<Entry>, next: Uses, e: Entry, now: nat)
    requires Aged(rest, next) && next(e.key) == now > 0
    requires forall i :: 0 <= i < |rest| ==> next(rest[i].key) < now
    ensures Aged(rest + [e], next)
  {
  }

  lemma NewestAged(all: seq<Entry>, next: Uses)
    requires Aged(all, next)
    ensures Aged(Newest(all), next) && |Newest(all)| <= CAPACITY
  {
  }

  /** The key used last goes to the end, and the oldest may leave. */
  lemma UsedAged(views: seq<Entry>, use: Uses, next: Uses, e: Entry, now: nat)
    requires Aged(views, use) && (forall k :: k != e.key ==> next(k) == use(k))
    requires (forall k :: use(k) < now) && next(e.key) == now
    ensures var all := Without(views, e.key) + [e];
            && Aged(all, next) && Aged(Newest(all), next) && |Newest(all)| <= CAPACITY
  {
    var rest := Without(views, e.key);
    RestAged(views, use, next, e.key);
    Remains(views, use, e.key);
    forall i | 0 <= i < |rest| ensures next(rest[i].key) < now {
      assert rest[i] in rest;
    }
    assert use(e.key) < now;
    AppendAged(rest, next, e, now);
    NewestAged(rest + [e], next);
  }

  lemma UseRecorded(ops: seq<Op>, op: Op)
    ensures After(ops + [op]) == Apply(After(ops), op)
    ensures forall k ::
              UsesOf(ops + [op])(k) == if Touched(After(ops), op) == Some(k) then |ops| + 1 else UsesOf(ops)(k)
  {
  }

  lemma StepAged(views: seq<Entry>, op: Op, use: Uses, next: Uses, now: nat)
    requires Aged(views, use) && |views| <= CAPACITY && (forall k :: use(k) < now)
    requires forall k :: next(k) == if Touched(views, op) == Some(k) then now else use(k)
    ensures Aged(Apply(views, op), next) && |Apply(views, op)| <= CAPACITY
  {
    match op
    case Read(key, order) =>
      if Touched(views, op).Some? {
        var e := Entry(key, Find(views, key).value);
        UsedAged(views, use, next, e, now);
        FoundLeaves(views, use, key);
      }
    case Save(key, graph, camera, bounds) =>
      if Touched(views, op).Some? {
        UsedAged(views, use, next, Entry(key, View(Flatten(graph), camera, bounds)), now);
      }
    case Forget(key) =>
      RestAged(views, use, next, key);
      Remains(views, use, key);
    case Clear =>
  }

  lemma FoundLeaves(views: seq<Entry>, use: Uses, key: string)
    requires Aged(views, use) && Find(views, key).Some?
    ensures |Without(views, key)| == |views| - 1
  {
    var p := Place(views, use, key);
  }

  /** After any operations the memory lists its keys from the least to the most recently used, and holds
      at most eight. */
  lemma {:induction false} AlwaysByRecency(ops: seq<Op>)
    ensures Aged(After(ops), UsesOf(ops)) && |After(ops)| <= CAPACITY
  {
    if ops != [] {
      var init, op := ops[..|ops| - 1], ops[|ops| - 1];
      assert ops == init + [op];
      AlwaysByRecency(init);
      UseRecorded(init, op);
      StepAged(After(init), op, UsesOf(init), UsesOf(ops), |ops|);
    }
  }

  ghost predicate Held(views: seq<Entry>, key: string) {
    exists i :: 0 <= i < |views| && views[i].key == key
  }

  /** No held key was used longer ago. */
  ghost predicate Oldest(views: seq<Entry>, use: Uses, key: string) {
    forall i {:trigger use(views[i].key)} :: 0 <= i < |views| ==> use(key) <= use(views[i].key)
  }

  /** What makes a held key leave: clearing, forgetting it, or saving a key that is not held while eight
      are, of which it is the least recently used. */
  ghost predicate Leaves(views: seq<Entry>, use: Uses, op: Op, key: string) {
    || op.Clear? || op == Forget(key)
    || (op.Save? && |op.graph| <= MAX_ORDER && op.key != key
        && |views| == CAPACITY && !Held(views, op.key) && Oldest(views, use, key))
  }

  lemma HeldStays(views: seq<Entry>, use: Uses, e: Entry, key: string)
    requires Aged(views, use) && (key == e.key || Held(views, key))
    ensures Held(Without(views, e.key) + [e], key)
  {
    var rest := Without(views, e.key);
    var all := rest + [e];
    assert all[|rest|] == e;
    if key != e.key {
      Remains(views, use, e.key);
      var i :| 0 <= i < |views| && views[i].key == key;
      assert views[i] in rest;
      var j :| 0 <= j < |rest| && rest[j] == views[i];
      assert all[j].key == key;
    }
  }

  lemma HeldAt(views: seq<Entry>, use: Uses, key: string) returns (i: nat)
    requires Aged(views, use) && Held(views, key)
    ensures i < |views| && views[i].key == key
    ensures Oldest(views, use, key) <==> i == 0
    ensures forall j :: 0 <= j < |views| && views[j].key == key ==> j == i
  {
    i :| 0 <= i < |views| && views[i].key == key;
    forall j | 0 <= j < |views|
      ensures (j < i ==> use(views[j].key) < use(key)) && (i < j ==> use(key) < use(views[j].key))
    {
    }
    if i > 0 {
      assert use(views[0].key) < use(key);
    }
  }

  /** Saving with room to spare, or a key that is held already, drops nothing. */
  lemma RoomToSpare(views: seq<Entry>, use: Uses, e: Entry)
    requires Aged(views, use) && |views| <= CAPACITY && (|views| < CAPACITY || Held(views, e.key))
    ensures Newest(Without(views, e.key) + [e]) == Without(views, e.key) + [e]
  {
    Remains(views, use, e.key);
    if Held(views, e.key) {
      var i := HeldAt(views, use, e.key);
      var p := Place(views, use, e.key);
    }
  }

  lemma TailHeld(views: seq<Entry>, e: Entry, key: string, i: nat)
    requires i < |views| && key != e.key && forall j :: 0 <= j < |views| ==> (views[j].key == key <==> j == i)
    ensures Held(views[1..] + [e], key) <==> i > 0
  {
    var kept := views[1..] + [e];
    if i > 0 {
      assert kept[i - 1].key == key;
    } else {
      forall j | 0 <= j < |kept| ensures kept[j].key != key {
        assert j < |kept| - 1 ==> kept[j] == views[j + 1];
      }
    }
  }

  lemma FullAndNew(views: seq<Entry>, e: Entry)
    requires |views| == CAPACITY && !Held(views, e.key)
    ensures Newest(Without(views, e.key) + [e]) == views[1..] + [e]
  {
    NotThere(views, e.key);
  }

  lemma OldestDropped(views: seq<Entry>, use: Uses, e: Entry, key: string)
    requires Aged(views, use) && |views| == CAPACITY && !Held(views, e.key) && key != e.key && Held(views, key)
    ensures Held(Newest(Without(views, e.key) + [e]), key) <==> !Oldest(views, use, key)
  {
    FullAndNew(views, e);
    var i := HeldAt(views, use, key);
    TailHeld(views, e, key, i);
  }

  lemma UsedHeld(views: seq<Entry>, use: Uses, e: Entry, key: string)
    requires Aged(views, use) && Held(Without(views, e.key) + [e], key)
    ensures key == e.key || Held(views, key)
  {
    var all := Without(views, e.key) + [e];
    var i :| 0 <= i < |all| && all[i].key == key;
    Remains(views, use, e.key);
    if key != e.key {
      assert all[i] in Without(views, e.key);
      var j :| 0 <= j < |views| && views[j] == all[i];
    }
  }

  lemma SaveHeld(views: seq<Entry>, use: Uses, op: Op, key: string)
    requires Aged(views, use) && |views| <= CAPACITY && op.Save? && |op.graph| <= MAX_ORDER
    ensures Held(Apply(views, op), key) <==> op.key == key || (Held(views, key) && !Leaves(views, use, op, key))
  {
    var e := Entry(op.key, View(Flatten(op.graph), op.camera, op.bounds));
    var all := Without(views, e.key) + [e];
    if key == e.key || Held(views, key) {
      HeldStays(views, use, e, key);
    }
    if Held(Newest(all), key) {
      NewestHeld(all, key);
      UsedHeld(views, use, e, key);
    }
    if |views| < CAPACITY || Held(views, e.key) {
      RoomToSpare(views, use, e);
    } else if key != e.key && Held(views, key) {
      OldestDropped(views, use, e, key);
    } else if key == e.key {
      assert Newest(all)[|Newest(all)| - 1] == e;
    }
  }

  lemma NewestHeld(all: seq<Entry>, key: string)
    requires Held(Newest(all), key)
    ensures Held(all, key)
  {
    var i :| 0 <= i < |Newest(all)| && Newest(all)[i].key == key;
    assert all[i + |all| - |Newest(all)|] == Newest(all)[i];
  }

  lemma ForgetHeld(views: seq<Entry>, use: Uses, name: string, key: string)
    requires Aged(views, use)
    ensures Held(Without(views, name), key) <==> Held(views, key) && key != name
  {
    Remains(views, use, name);
    var rest := Without(views, name);
    if Held(rest, key) {
      var i :| 0 <= i < |rest| && rest[i].key == key;
      assert rest[i] in rest;
      var j :| 0 <= j < |views| && views[j] == rest[i];
    }
    if Held(views, key) && key != name {
      var i :| 0 <= i < |views| && views[i].key == key;
      assert views[i] in rest;
      var j :| 0 <= j < |rest| && rest[j] == views[i];
    }
  }

  lemma ReadHeld(views: seq<Entry>, use: Uses, op: Op, key: string)
    requires Aged(views, use) && op.Read? && Touched(views, op).Some?
    ensures Held(Apply(views, op), key) <==> Held(views, key)
  {
    var e := Entry(op.key, Find(views, op.key).value);
    var p := Place(views, use, op.key);
    assert views[p].key == op.key;
    if Held(views, key) {
      HeldStays(views, use, e, key);
    }
    if Held(Apply(views, op), key) {
      UsedHeld(views, use, e, key);
    }
  }

  /** After any operations, what the next one leaves held: the key it uses, and every held key that does
      not leave. In particular a save that makes room drops the least recently used key and no other. */
  lemma HeldExactly(ops: seq<Op>, op: Op, key: string)
    ensures Held(After(ops + [op]), key) <==>
            Touched(After(ops), op) == Some(key) || (Held(After(ops), key) && !Leaves(After(ops), UsesOf(ops), op, key))
  {
    var views, use := After(ops), UsesOf(ops);
    AlwaysByRecency(ops);
    UseRecorded(ops, op);
    match op
    case Read(name, order) =>
      if Touched(views, op).Some? {
        ReadHeld(views, use, op, key);
        var p := Place(views, use, name);
        assert views[p].key == name;
      }
    case Save(_, graph, _, _) =>
      if |graph| <= MAX_ORDER {
        SaveHeld(views, use, op, key);
      }
    case Forget(name) => ForgetHeld(views, use, name, key);
    case Clear =>
  }

  /** Nothing is forgotten or cleared. */
  ghost predicate Growing(ops: seq<Op>) {
    forall i :: 0 <= i < |ops| ==> ops[i].Read? || ops[i].Save?
  }

  /** Whatever has been used and is not held is older than eight that are. */
  ghost predicate Displaced(views: seq<Entry>, use: Uses, key: string) {
    |views| == CAPACITY && forall i {:trigger use(views[i].key)} :: 0 <= i < |views| ==> use(key) < use(views[i].key)
  }

  lemma OverflowDropsOldest(all: seq<Entry>, next: Uses, key: string)
    requires Aged(all, next) && |all| <= CAPACITY + 1 && Held(all, key)
    ensures Held(Newest(all), key) || Displaced(Newest(all), next, key)
  {
  }

  lemma DisplacedStays(views: seq<Entry>, use: Uses, next: Uses, e: Entry, now: nat, key: string)
    requires Aged(views, use) && (forall k :: use(k) < now) && key != e.key
    requires forall k :: next(k) == if k == e.key then now else use(k)
    requires Displaced(views, use, key)
    ensures Displaced(Newest(Without(views, e.key) + [e]), next, key)
  {
    var rest := Without(views, e.key);
    Remains(views, use, e.key);
    var kept := Newest(rest + [e]);
    forall j | 0 <= j < |kept| ensures next(key) < next(kept[j].key) {
      assert kept[j] == e || kept[j] in rest;
      if kept[j] in rest {
        var i :| 0 <= i < |views| && views[i] == kept[j];
        assert use(key) < use(views[i].key);
      }
    }
  }

  lemma UsedKeeps(views: seq<Entry>, use: Uses, next: Uses, e: Entry, now: nat, key: string)
    requires Aged(views, use) && |views| <= CAPACITY && (forall k :: use(k) < now)
    requires forall k :: next(k) == if k == e.key then now else use(k)
    requires use(key) > 0 ==> Held(views, key) || Displaced(views, use, key)
    ensures var all := Without(views, e.key) + [e];
            next(key) > 0 ==> Held(Newest(all), key) || Displaced(Newest(all), next, key)
  {
    if key == e.key || Held(views, key) {
      UsedAged(views, use, next, e, now);
      Remains(views, use, e.key);
      HeldStays(views, use, e, key);
      OverflowDropsOldest(Without(views, e.key) + [e], next, key);
    } else if use(key) > 0 {
      DisplacedStays(views, use, next, e, now, key);
    }
  }

  lemma StepKeeps(views: seq<Entry>, op: Op, use: Uses, next: Uses, now: nat, key: string)
    requires Aged(views, use) && |views| <= CAPACITY && (forall k :: use(k) < now)
    requires forall k :: next(k) == if Touched(views, op) == Some(k) then now else use(k)
    requires op.Read? || op.Save?
    requires use(key) > 0 ==> Held(views, key) || Displaced(views, use, key)
    ensures next(key) > 0 ==> Held(Apply(views, op), key) || Displaced(Apply(views, op), next, key)
  {
    if Touched(views, op).Some? {
      if op.Read? {
        var e := Entry(op.key, Find(views, op.key).value);
        UsedKeeps(views, use, next, e, now, key);
        FoundLeaves(views, use, op.key);
        assert Newest(Without(views, op.key) + [e]) == Apply(views, op);
      } else {
        UsedKeeps(views, use, next, Entry(op.key, View(Flatten(op.graph), op.camera, op.bounds)), now, key);
      }
    } else if next(key) > 0 && !Held(views, key) {
      forall i | 0 <= i < |views| ensures next(key) < next(views[i].key) {
        assert use(key) < use(views[i].key);
      }
    }
  }

  /** As long as nothing is forgotten, the eight most recently used keys are held: a key is held exactly
      when it has been used and is not older than all of eight held ones. */
  lemma {:induction false} HoldsMostRecent(ops: seq<Op>, key: string)
    requires Growing(ops)
    ensures Held(After(ops), key) <==> LastUse(ops, key) > 0 && !Displaced(After(ops), UsesOf(ops), key)
  {
    AlwaysByRecency(ops);
    if Held(After(ops), key) {
      var i :| 0 <= i < |After(ops)| && After(ops)[i].key == key;
      assert UsesOf(ops)(After(ops)[i].key) > 0;
    }
    if ops != [] {
      var init, op := ops[..|ops| - 1], ops[|ops| - 1];
      assert ops == init + [op];
      HoldsMostRecent(init, key);
      AlwaysByRecency(init);
      UseRecorded(init, op);
      StepKeeps(After(init), op, UsesOf(init), UsesOf(ops), |ops|, key);
    }
  }

  /** Clearing starts afresh: what came before it no longer matters. */
  lemma {:induction false} ClearStarts(before: seq<Op>, ops: seq<Op>)
    ensures After(before + [Clear] + ops) == After(ops)
  {
    var all := before + [Clear] + ops;
    if ops == [] {
      assert all == before + [Clear];
      UseRecorded(before, Clear);
    } else {
      var init, op := ops[..|ops| - 1], ops[|ops| - 1];
      assert ops == init + [op] && all == before + [Clear] + init + [op];
      ClearStarts(before, init);
      UseRecorded(before + [Clear] + init, op);
      UseRecorded(init, op);
    }
  }

  /** The same holds from the last clear on, whatever came before it. */
  lemma HoldsMostRecentSince(before: seq<Op>, ops: seq<Op>, key: string)
    requires Growing(ops)
    ensures Held(After(before + [Clear] + ops), key)
            <==> LastUse(ops, key) > 0 && !Displaced(After(ops), UsesOf(ops), key)
  {
    ClearStarts(before, ops);
    HoldsMostRecent(ops, key);
  }

  /** The view of the last successful save under a key. */
  function LastSaved(ops: seq<Op>, key: string): Option<View> {
    if ops == [] then None
    else
      var op := ops[|ops| - 1];
      if op.Save? && op.key == key && |op.graph| <= MAX_ORDER then Some(View(Flatten(op.graph), op.camera, op.bounds))
      else LastSaved(ops[..|ops| - 1], key)
  }

  lemma KeptUsed(views: seq<Entry>, use: Uses, x: Entry, e: Entry)
    requires Aged(views, use) && (e in Newest(Without(views, x.key) + [x]) || e in Without(views, x.key) + [x])
    ensures e == x || (e in views && e.key != x.key)
  {
    Remains(views, use, x.key);
  }

  lemma Kept(views: seq<Entry>, op: Op, use: Uses, e: Entry)
    requires Aged(views, use) && e in Apply(views, op)
    ensures if op.Save? && op.key == e.key && |op.graph| <= MAX_ORDER
            then e.view == View(Flatten(op.graph), op.camera, op.bounds) else e in views
  {
    match op
    case Read(key, _) =>
      if Touched(views, op).Some? {
        KeptUsed(views, use, Entry(key, Find(views, key).value), e);
        var p := Place(views, use, key);
      }
    case Save(key, graph, camera, bounds) =>
      if Touched(views, op).Some? {
        KeptUsed(views, use, Entry(key, View(Flatten(graph), camera, bounds)), e);
      }
    case Forget(key) => Remains(views, use, key);
    case Clear =>
  }

  /** What is held under a key is what was last saved under it. */
  lemma {:induction false} HoldsLastSaved(ops: seq<Op>, e: Entry)
    requires e in After(ops)
    ensures LastSaved(ops, e.key) == Some(e.view)
  {
    var init, op := ops[..|ops| - 1], ops[|ops| - 1];
    AlwaysByRecency(init);
    Kept(After(init), op, UsesOf(init), e);
    if e in After(init) {
      HoldsLastSaved(init, e);
    }
  }

  lemma {:induction false} FoundIsHeld(views: seq<Entry>, key: string)
    ensures Find(views, key).None? <==> !Held(views, key)
    ensures Find(views, key).Some? ==> Entry(key, Find(views, key).value) in views
  {
    if views != [] {
      FoundIsHeld(views[1..], key);
      if views[0].key == key {
        assert Held(views, key);
      } else {
        if Held(views[1..], key) {
          var i :| 0 <= i < |views[1..]| && views[1..][i].key == key;
          assert views[i + 1].key == key;
        }
        if Held(views, key) {
          var i :| 0 <= i < |views| && views[i].key == key;
          assert views[1..][i - 1].key == key;
        }
      }
    }
  }

  /** After any history, a key is read exactly when it is held and the graph in view has as many nodes as the
      one that was saved last under it; what comes back is that save. */
  lemma ReadsLastSaved(ops: seq<Op>, key: string, order: nat)
    ensures Touched(After(ops), Op.Read(key, order)) == Some(key) <==>
            && Held(After(ops), key)
            && LastSaved(ops, key).Some? && |LastSaved(ops, key).value.coordinates| == 2 * order
    ensures Held(After(ops), key) ==> Find(After(ops), key) == LastSaved(ops, key)
  {
    var views := After(ops);
    FoundIsHeld(views, key);
    if Held(views, key) {
      HoldsLastSaved(ops, Entry(key, Find(views, key).value));
    }
  }

  /** A view saved from a graph within its budget is read back for a graph of as many nodes and no other, with
      the camera, the bounds and every node's position in node order. */
  lemma SavedIsRead(ops: seq<Op>, key: string, graph: seq<Position>, camera: Camera, bounds: Option<Bounds>, order: nat)
    requires |graph| <= 5000
    ensures var after := After(ops + [Save(key, graph, camera, bounds)]);
            && (Touched(after, Op.Read(key, order)) == Some(key) <==> order == |graph|)
            && Find(after, key).Some?
            && var view := Find(after, key).value;
               && view.camera == camera && view.bounds == bounds && |view.coordinates| == 2 * |graph|
               && forall i :: 0 <= i < |graph| ==>
                    view.coordinates[2 * i] == graph[i].x && view.coordinates[2 * i + 1] == graph[i].y
  {
    var all := ops + [Save(key, graph, camera, bounds)];
    HeldExactly(ops, Save(key, graph, camera, bounds), key);
    ReadsLastSaved(all, key, order);
    FlattenLength(graph);
    forall i | 0 <= i < |graph|
      ensures Flatten(graph)[2 * i] == graph[i].x && Flatten(graph)[2 * i + 1] == graph[i].y
    {
      FlattenAt(graph, i);
    }
  }
}
