/** Pages of result entries, checked as they arrive: rows ordered by a zero-padded text key. */
module EntryPages {
  import opened Results
  import opened Decimal
  import opened Identity
  import opened Ordering

  const MAX_DIGITS: nat := 40
  const MAX_ITEMS: nat := 200
  const WIDTH: nat := 20

  /** A row, and also the cursor that names it. */
  datatype Entry = Entry(boundary: string, id: string)
  datatype Page = Page(items: seq<Entry>, next: Option<Entry>)

  /** The texts that the number pattern admits and that are not negative: `-0` is one of them. */
  predicate Unsigned(s: string) {
    (Canonical(s) || s == "-0") && |s| <= MAX_DIGITS
  }

  function Amount(s: string): nat
    requires Unsigned(s)
  {
    if s == "-0" then 0 else Value(s)
  }

  predicate Shaped(e: Entry) {
    Unsigned(e.boundary) && Digest(e.id)
  }

  predicate Wellformed(p: Page) {
    && |p.items| <= MAX_ITEMS && (p.next.Some? ==> Shaped(p.next.value))
    && forall i :: 0 <= i < |p.items| ==> Shaped(p.items[i])
  }

  function Zeros(n: nat): string {
    if n == 0 then "" else "0" + Zeros(n - 1)
  }

  function Pad(s: string): string {
    if |s| >= WIDTH then s else Zeros(WIDTH - |s|) + s
  }

  function Key(e: Entry): string {
    Pad(e.boundary) + (":" + e.id)
  }

  predicate InRange(e: Entry) {
    Unsigned(e.boundary) && Amount(e.boundary) <= UINT64
  }

  predicate KeyBefore(a: Entry, b: Entry) { TextLess(Key(a), Key(b)) }

  lemma KeysCompare()
    ensures Transitive(KeyBefore)
  {
    forall x: Entry, y: Entry, z: Entry | KeyBefore(x, y) && KeyBefore(y, z) ensures KeyBefore(x, z) {
      TextTransitive(Key(x), Key(y), Key(z));
    }
  }

  function Keys<T>(items: seq<T>, key: T -> string): seq<string> {
    seq(|items|, i requires 0 <= i < |items| => key(items[i]))
  }

  ghost predicate All<T>(items: seq<T>, fits: T -> bool) {
    forall i {:trigger fits(items[i])} :: 0 <= i < |items| ==> fits(items[i])
  }

  ghost predicate Good(items: seq<Entry>, after: Option<Entry>) {
    All(items, InRange) && Ascends(items, after, KeyBefore)
  }

  /** A page is accepted exactly when its rows are well formed, within the limit, in range and strictly
      ascending by key from the row that the request continues after, and its cursor is its last row. */
  ghost predicate Accepted(p: Page, after: Option<Entry>, limit: nat) {
    && Wellformed(p) && |p.items| <= limit
    && Good(p.items, after)
    && (p.next.Some? ==> p.items != [] && p.items[|p.items| - 1] == p.next.value)
  }

  lemma AllStep<T>(items: seq<T>, fits: T -> bool, i: nat)
    requires i < |items| && All(items[..i], fits)
    ensures All(items[..i + 1], fits) <==> fits(items[i])
    ensures All(items, fits) ==> fits(items[i])
  {
    assert items[..i + 1] == items[..i] + [items[i]];
    assert items[..i + 1][i] == items[i];
  }

  lemma TextsCompare()
    ensures Transitive(TextLess)
  {
    forall x: string, y: string, z: string | TextLess(x, y) && TextLess(y, z) ensures TextLess(x, z) {
      TextTransitive(x, y, z);
    }
  }

  /** The loop over a page's rows. */
  method CheckRows<T>(items: seq<T>, floor: string, key: T -> string, fits: T -> bool) returns (ok: bool)
    ensures ok <==> Ascends(Keys(items, key), Some(floor), TextLess) && All(items, fits)
  {
    ghost var keys := Keys(items, key);
    var previous := floor;
    var i := 0;
    TextsCompare();
    while i < |items|
      invariant 0 <= i <= |items|
      invariant Ascends(keys[..i], Some(floor), TextLess) && All(items[..i], fits)
      invariant Some(previous) == Latest(keys[..i], Some(floor))
    {
      AscendsStep(keys, Some(floor), TextLess, i);
      AllStep(items, fits, i);
      if !TextLess(previous, key(items[i])) || !fits(items[i]) {
        return false;
      }
      previous := key(items[i]);
      i := i + 1;
    }
    assert items[..i] == items && keys[..i] == keys;
    ok := true;
  }

  function Floor(after: Option<Entry>): string {
    if after.Some? then Key(after.value) else ""
  }

  /** Comparing keys, from the empty text where there is no cursor, is comparing rows. */
  lemma KeysAscend(items: seq<Entry>, after: Option<Entry>)
    ensures Ascends(Keys(items, Key), Some(Floor(after)), TextLess) <==> Ascends(items, after, KeyBefore)
  {
    var keys := Keys(items, Key);
    if Ascends(keys, Some(Floor(after)), TextLess) {
      forall i, j | 0 <= i < j < |items| ensures KeyBefore(items[i], items[j]) {
        assert TextLess(keys[i], keys[j]);
      }
      forall i | 0 <= i < |items| ensures TextLess(Floor(after), Key(items[i])) {
        assert TextLess(Floor(after), keys[i]);
      }
    }
    if Ascends(items, after, KeyBefore) {
      forall i, j | 0 <= i < j < |items| ensures TextLess(keys[i], keys[j]) {
        AscendsAt(items, after, KeyBefore, i, j);
      }
      forall i | 0 <= i < |items| ensures TextLess(Floor(after), keys[i]) {
        if after.Some? {
          assert KeyBefore(after.value, items[i]);
        } else {
          assert Key(items[i]) != [];
        }
      }
    }
  }

  method ParsePage(p: Page, after: Option<Entry>, limit: nat) returns (r: Result<Page, ()>)
    ensures r == if Accepted(p, after, limit) then Ok(p) else Err(())
  {
    if !Wellformed(p) || |p.items| > limit {
      return Err(());
    }
    KeysAscend(p.items, after);
    var ok := CheckRows(p.items, Floor(after), Key, InRange);
    if !ok {
      return Err(());
    }
    if p.next.Some? && (p.items == [] || p.items[|p.items| - 1] != p.next.value) {
      return Err(());
    }
    r := Ok(p);
  }

  /** Strictly ascending keys need be compared with the cursor only once. */
  lemma AscendsFromFirst(items: seq<Entry>, after: Option<Entry>)
    ensures Ascends(items, after, KeyBefore) <==>
            && (forall i, j {:trigger items[i], items[j]} :: 0 <= i < j < |items| ==>
                  TextLess(Key(items[i]), Key(items[j])))
            && (after.Some? && items != [] ==> TextLess(Key(after.value), Key(items[0])))
  {
    if forall i, j {:trigger items[i], items[j]} :: 0 <= i < j < |items| ==> TextLess(Key(items[i]), Key(items[j])) {
      if after.Some? && items != [] && TextLess(Key(after.value), Key(items[0])) {
        forall i | 0 <= i < |items| ensures KeyBefore(after.value, items[i]) {
          if i > 0 {
            TextTransitive(Key(after.value), Key(items[0]), Key(items[i]));
          }
        }
      }
    }
    if Ascends(items, after, KeyBefore) {
      forall i, j | 0 <= i < j < |items| ensures TextLess(Key(items[i]), Key(items[j])) {
        AscendsAt(items, after, KeyBefore, i, j);
      }
      if after.Some? && items != [] {
        assert KeyBefore(after.value, items[0]);
      }
    }
  }

  /** The row names a number of 64 bits and an identity. */
  predicate Plain(e: Entry, n: nat) {
    Digest(e.id) && n <= 18446744073709551615 && (e.boundary == Print(n) || (n == 0 && e.boundary == "-0"))
  }

  lemma PlainInRange(e: Entry, n: nat)
    requires Plain(e, n)
    ensures Shaped(e) && InRange(e) && Amount(e.boundary) == n
  {
    PrintCanonical(n);
    PrintShort(n);
  }

  lemma InRangePlain(e: Entry)
    requires Shaped(e) && InRange(e)
    ensures Plain(e, Amount(e.boundary))
  {
    if e.boundary != "-0" {
      ValuePrints(e.boundary);
    }
  }

  ghost predicate SomePlain(e: Entry) {
    exists n: nat :: Plain(e, n)
  }

  ghost predicate AllPlain(items: seq<Entry>) {
    forall i :: 0 <= i < |items| ==> SomePlain(items[i])
  }

  lemma RowsPlain(items: seq<Entry>)
    ensures (forall i :: 0 <= i < |items| ==> Shaped(items[i])) && All(items, InRange) <==> AllPlain(items)
  {
    if (forall i :: 0 <= i < |items| ==> Shaped(items[i])) && All(items, InRange) {
      forall i | 0 <= i < |items| ensures SomePlain(items[i]) {
        assert InRange(items[i]);
        InRangePlain(items[i]);
      }
    }
    if AllPlain(items) {
      forall i | 0 <= i < |items| ensures Shaped(items[i]) && InRange(items[i]) {
        var n: nat :| Plain(items[i], n);
        PlainInRange(items[i], n);
      }
    }
  }

  /** A page is accepted exactly when it has at most 200 rows and no more than were asked for, every row names a
      number of 64 bits and an identity, the rows' keys strictly ascend from that of the row it continues after,
      and it ends there or its cursor is its last row. */
  lemma AcceptedMeans(p: Page, after: Option<Entry>, limit: nat)
    ensures Accepted(p, after, limit) <==>
            && |p.items| <= 200 && |p.items| <= limit
            && AllPlain(p.items)
            && (forall i, j {:trigger p.items[i], p.items[j]} :: 0 <= i < j < |p.items| ==>
                  TextLess(Key(p.items[i]), Key(p.items[j])))
            && (after.Some? && p.items != [] ==> TextLess(Key(after.value), Key(p.items[0])))
            && (p.next == None || (p.items != [] && p.next == Some(p.items[|p.items| - 1])))
  {
    AscendsFromFirst(p.items, after);
    RowsPlain(p.items);
  }

  // ----- text order is numeric order -----

  lemma ShiftDigits(d: nat, q: nat, v: nat, c: nat)
    requires v < q && c < 10
    ensures 10 * (d * q + v) + c == d * (10 * q) + (10 * v + c)
    ensures 10 * v + c < 10 * q
  {
  }

  lemma {:induction false} LeadingDigit(s: string)
    requires AllDigits(s) && s != []
    ensures Value(s) == DigitValue(s[0]) * Power(|s| - 1) + Value(s[1..])
    ensures Value(s[1..]) < Power(|s| - 1)
  {
    var init, rest := s[..|s| - 1], s[1..];
    if init != [] {
      LeadingDigit(init);
      assert init[1..] == rest[..|rest| - 1] && init[0] == s[0];
      ShiftDigits(DigitValue(s[0]), Power(|init| - 1), Value(init[1..]), DigitValue(s[|s| - 1]));
    } else {
      assert init == [] && rest == [];
    }
  }

  lemma LargerDigit(d: nat, e: nat, p: nat, x: nat, y: nat)
    requires x < p && y < p && d < e
    ensures d * p + x < e * p + y
  {
    var k := e - d - 1;
    assert e * p == d * p + k * p + p;
    assert k * p >= 0;
  }

  /** Among digit texts of one length. */
  lemma {:induction false} SameLengthOrder(s: string, t: string)
    requires AllDigits(s) && AllDigits(t) && |s| == |t|
    ensures TextLess(s, t) <==> Value(s) < Value(t)
  {
    if s != [] {
      LeadingDigit(s);
      LeadingDigit(t);
      SameLengthOrder(s[1..], t[1..]);
      var d, e, p := DigitValue(s[0]), DigitValue(t[0]), Power(|s| - 1);
      if d < e {
        LargerDigit(d, e, p, Value(s[1..]), Value(t[1..]));
      } else if e < d {
        LargerDigit(e, d, p, Value(t[1..]), Value(s[1..]));
      }
    }
  }

  lemma {:induction false} PrefixOrder(x: string, y: string, u: string, v: string)
    requires |x| == |y|
    ensures TextLess(x + u, y + v) <==> TextLess(x, y) || (x == y && TextLess(u, v))
  {
    if x == [] {
      assert x + u == u && y + v == v;
    } else {
      PrefixOrder(x[1..], y[1..], u, v);
      assert (x + u)[1..] == x[1..] + u && (y + v)[1..] == y[1..] + v;
      assert x == [x[0]] + x[1..] && y == [y[0]] + y[1..];
    }
  }

  lemma ZeroLeads(s: string, t: string)
    requires AllDigits(s) && t == "0" + s
    ensures AllDigits(t) && Value(t) == Value(s)
  {
  }

  lemma {:induction false} ZerosLead(n: nat, s: string)
    requires AllDigits(s)
    ensures AllDigits(Zeros(n) + s) && Value(Zeros(n) + s) == Value(s)
  {
    if n > 0 {
      ZerosLead(n - 1, s);
      assert Zeros(n) + s == "0" + (Zeros(n - 1) + s);
      ZeroLeads(Zeros(n - 1) + s, Zeros(n) + s);
    } else {
      assert Zeros(n) + s == s;
    }
  }

  lemma {:induction false} MinusFirst(n: nat, t: string)
    requires AllDigits(t) && |t| == n + 2
    ensures |Zeros(n)| == n && TextLess(Zeros(n) + "-0", t)
  {
    if n > 0 {
      MinusFirst(n - 1, t[1..]);
      assert Zeros(n) + "-0" == "0" + (Zeros(n - 1) + "-0");
    } else {
      assert Zeros(n) + "-0" == "-0";
    }
  }

  lemma {:induction false} ZerosLength(n: nat)
    ensures |Zeros(n)| == n
  {
    if n > 0 {
      ZerosLength(n - 1);
    }
  }

  /** In range, every boundary fits the full width. */
  lemma Padded(s: string)
    requires Unsigned(s) && Amount(s) <= UINT64
    ensures |s| <= WIDTH && |Pad(s)| == WIDTH && Pad(s) == Zeros(WIDTH - |s|) + s
    ensures s != "-0" ==> AllDigits(Pad(s)) && Value(Pad(s)) == Value(s)
  {
    if s != "-0" {
      ValuePrints(s);
      PrintShort(Value(s));
    }
    var n := WIDTH - |s|;
    ZerosLength(n);
    if s != "-0" {
      ZerosLead(n, s);
    }
    assert n == 0 ==> Zeros(n) + s == s;
  }

  lemma PadOrder(s: string, t: string)
    requires Unsigned(s) && Unsigned(t) && Amount(s) <= UINT64 && Amount(t) <= UINT64
    ensures |Pad(s)| == |Pad(t)|
    ensures Pad(s) == Pad(t) <==> s == t
    ensures TextLess(Pad(s), Pad(t)) <==> Amount(s) < Amount(t) || (s == "-0" && t == "0")
  {
    Padded(s);
    Padded(t);
    TextTotal(Pad(s), Pad(t));
    if s == "-0" && t != "-0" {
      MinusFirst(WIDTH - |s|, Pad(t));
      ValuePrints(t);
    } else if s != "-0" && t == "-0" {
      MinusFirst(WIDTH - |t|, Pad(s));
      ValuePrints(s);
    } else if s != "-0" {
      SameLengthOrder(Pad(s), Pad(t));
      ValuePrints(s);
      ValuePrints(t);
    }
  }

  ghost predicate NumericallyBefore(a: Entry, b: Entry)
    requires Shaped(a) && Shaped(b)
  {
    Amount(a.boundary) < Amount(b.boundary) || (Amount(a.boundary) == Amount(b.boundary) && TextLess(a.id, b.id))
  }

  /** Two spellings of zero, in an order that their identities contradict. */
  predicate SignMisleads(a: Entry, b: Entry) {
    || (a.boundary == "-0" && b.boundary == "0" && !TextLess(a.id, b.id))
    || (a.boundary == "0" && b.boundary == "-0" && TextLess(a.id, b.id))
  }

  lemma KeyParts(x: string, y: string, u: string, v: string)
    requires |x| == |y|
    ensures TextLess(x + (":" + u), y + (":" + v)) <==> TextLess(x, y) || (x == y && TextLess(u, v))
    ensures x + (":" + u) == y + (":" + v) <==> x == y && u == v
  {
    PrefixOrder(x, y, ":" + u, ":" + v);
    PrefixOrder(":", ":", u, v);
    TextTotal(":", ":");
    var s, t := x + (":" + u), y + (":" + v);
    assert s[..|x|] == x && t[..|x|] == y && s[|x|..][1..] == u && t[|x|..][1..] == v;
  }

  /** The text order of keys is the numeric order of rows, except where `-0` stands beside `0`. */
  lemma KeyOrderIsNumeric(a: Entry, b: Entry)
    requires Shaped(a) && Shaped(b) && InRange(a) && InRange(b)
    ensures (KeyBefore(a, b) <==> NumericallyBefore(a, b)) <==> !SignMisleads(a, b)
    ensures Key(a) == Key(b) <==> a == b
  {
    PadOrder(a.boundary, b.boundary);
    KeyParts(Pad(a.boundary), Pad(b.boundary), a.id, b.id);
    if a.boundary != "-0" {
      ValuePrints(a.boundary);
    }
    if b.boundary != "-0" {
      ValuePrints(b.boundary);
    }
  }

  // ----- chains of pages -----

  function After(pages: seq<Page>, k: nat): Option<Entry>
    requires k <= |pages|
  {
    if k == 0 then None else pages[k - 1].next
  }

  /** Every request but the first continues after the previous page's cursor. */
  ghost predicate Chain(pages: seq<Page>, limit: nat) {
    && (forall k {:trigger After(pages, k)} :: 0 <= k < |pages| ==> Accepted(pages[k], After(pages, k), limit))
    && (forall k {:trigger After(pages, k)} :: 0 < k < |pages| ==> After(pages, k).Some?)
  }

  function Rows(pages: seq<Page>): seq<Entry> {
    if pages == [] then [] else Rows(pages[..|pages| - 1]) + pages[|pages| - 1].items
  }

  lemma ChainInit(pages: seq<Page>, limit: nat)
    requires Chain(pages, limit) && pages != []
    ensures Chain(pages[..|pages| - 1], limit)
  {
    var init := pages[..|pages| - 1];
    forall k | 0 <= k < |init| ensures Accepted(init[k], After(init, k), limit) && (k > 0 ==> After(init, k).Some?) {
      assert After(init, k) == After(pages, k);
    }
  }

  lemma {:induction false} ChainRises(pages: seq<Page>, limit: nat)
    requires Chain(pages, limit)
    ensures Good(Rows(pages), None)
    ensures forall i :: 0 <= i < |Rows(pages)| ==> Shaped(Rows(pages)[i])
    ensures After(pages, |pages|).Some? ==> After(pages, |pages|) == Latest(Rows(pages), None)
    ensures pages == [] ==> Rows(pages) == []
  {
    if pages != [] {
      var init, last := pages[..|pages| - 1], pages[|pages| - 1];
      ChainInit(pages, limit);
      ChainRises(init, limit);
      var after := After(pages, |pages| - 1);
      assert after == After(init, |init|) == Latest(Rows(init), None);
      assert Accepted(last, after, limit);
      KeysCompare();
      AscendsJoins(Rows(init), last.items, None, KeyBefore);
    }
  }

  /** Whatever the server sends, the rows of a chain never repeat, and two of them are in numeric order
      exactly where `-0` does not mislead. */
  lemma ChainAscends(pages: seq<Page>, limit: nat, i: nat, j: nat)
    requires Chain(pages, limit) && i < j < |Rows(pages)|
    ensures var a, b := Rows(pages)[i], Rows(pages)[j];
            a != b && Shaped(a) && Shaped(b) && (NumericallyBefore(a, b) <==> !SignMisleads(a, b))
  {
    ChainRises(pages, limit);
    var a, b := Rows(pages)[i], Rows(pages)[j];
    AscendsAt(Rows(pages), None, KeyBefore, i, j);
    assert InRange(a) && InRange(b);
    TextIrreflexive(Key(a));
    KeyOrderIsNumeric(a, b);
  }

  /** With `-0` a row may come twice, once under each spelling of its boundary. */
  lemma SignRepeatsRow(id: string)
    requires Digest(id)
    ensures var page := Page([Entry("-0", id), Entry("0", id)], None);
            Accepted(page, None, 25) && Amount(page.items[0].boundary) == Amount(page.items[1].boundary)
  {
    var a, b := Entry("-0", id), Entry("0", id);
    assert Canonical("0") && Unsigned("0") && Unsigned("-0");
    assert "0"[..0] == "" && Value("0") == 0;
    TextIrreflexive(id);
    KeyOrderIsNumeric(a, b);
    assert SignMisleads(a, b);
    assert Ascends([a, b], None, KeyBefore);
  }

  lemma KeyIrreflexive(e: Entry)
    ensures !KeyBefore(e, e)
  {
    TextIrreflexive(Key(e));
  }

  lemma RowsDiffer(items: seq<Entry>, after: Option<Entry>, i: nat)
    requires Ascends(items, after, KeyBefore) && i + 1 < |items|
    ensures items[i] != items[i + 1]
  {
    AscendsAt(items, after, KeyBefore, i, i + 1);
    KeyIrreflexive(items[i]);
  }

  /** The page without row `i`. */
  function Skip(p: Page, i: nat): Page
    requires i < |p.items|
  {
    Page(p.items[..i] + p.items[i + 1..], p.next)
  }

  lemma SkipGood(p: Page, after: Option<Entry>, limit: nat, i: nat)
    requires Accepted(p, after, limit) && i < |p.items|
    ensures Wellformed(Skip(p, i)) && Good(Skip(p, i).items, after) && |Skip(p, i).items| <= limit
  {
    AscendsWithout(p.items, after, KeyBefore, i);
    forall k | 0 <= k < |Skip(p, i).items| ensures Shaped(Skip(p, i).items[k]) && InRange(Skip(p, i).items[k]) {
      var x := if k < i then k else k + 1;
      assert Skip(p, i).items[k] == p.items[x] && Shaped(p.items[x]) && InRange(p.items[x]);
    }
  }

  /** A skipped row goes unnoticed exactly when it is not the row that the page's cursor names. */
  lemma SkippedRowAccepted(p: Page, after: Option<Entry>, limit: nat, i: nat)
    requires Accepted(p, after, limit) && i < |p.items|
    ensures Accepted(Skip(p, i), after, limit) <==> i + 1 < |p.items| || p.next.None?
  {
    SkipGood(p, after, limit, i);
    if i + 1 == |p.items| > 1 {
      RowsDiffer(p.items, after, i - 1);
    }
  }

  // ----- the server -----

  /** A result's rows: canonical boundaries in range, ascending. */
  ghost predicate Stored(rows: seq<Entry>) {
    && (forall i :: 0 <= i < |rows| ==> Shaped(rows[i]) && rows[i].boundary != "-0" && InRange(rows[i]))
    && (forall i, j {:trigger NumericallyBefore(rows[i], rows[j])} :: 0 <= i < j < |rows| ==>
          NumericallyBefore(rows[i], rows[j]))
  }

  predicate Follows(e: Entry, after: Option<Entry>) {
    after.None? || (Shaped(e) && Shaped(after.value)
                    && (Amount(after.value.boundary) < Amount(e.boundary)
                        || (Amount(after.value.boundary) == Amount(e.boundary) && TextLess(after.value.id, e.id))))
  }

  function Selected(rows: seq<Entry>, after: Option<Entry>): seq<Entry> {
    if rows == [] then []
    else (if Follows(rows[0], after) then [rows[0]] else []) + Selected(rows[1..], after)
  }

  /** The rows that follow the cursor, cut at the limit, with a cursor only where more remain. */
  function Served(rows: seq<Entry>, after: Option<Entry>, limit: nat): Page
    requires limit > 0
  {
    var selected := Selected(rows, after);
    if |selected| > limit then Page(selected[..limit], Some(selected[limit - 1])) else Page(selected, None)
  }

  ghost function Mark(rows: seq<Entry>, n: nat): Option<Entry>
    requires n <= |rows|
  {
    if n == 0 then None else Some(rows[n - 1])
  }

  lemma StoredGood(rows: seq<Entry>)
    requires Stored(rows)
    ensures Good(rows, None)
  {
    forall i, j | 0 <= i < j < |rows| ensures KeyBefore(rows[i], rows[j]) {
      assert NumericallyBefore(rows[i], rows[j]);
      KeyOrderIsNumeric(rows[i], rows[j]);
    }
  }

  lemma SliceGood(rows: seq<Entry>, n: nat, m: nat)
    requires Good(rows, None) && n <= m <= |rows|
    ensures Good(rows[n..m], Mark(rows, n))
  {
  }

  lemma SliceWellformed(rows: seq<Entry>, n: nat, m: nat)
    requires Stored(rows) && n <= m <= |rows| && m - n <= MAX_ITEMS
    ensures Wellformed(Page(rows[n..m], if m < |rows| then Mark(rows, m) else None))
  {
  }

  lemma {:induction false} AllSelected(rows: seq<Entry>, after: Option<Entry>)
    requires forall i {:trigger Follows(rows[i], after)} :: 0 <= i < |rows| ==> Follows(rows[i], after)
    ensures Selected(rows, after) == rows
  {
    if rows != [] {
      AllSelected(rows[1..], after);
    }
  }

  lemma {:induction false} NoneSelected(rows: seq<Entry>, rest: seq<Entry>, after: Option<Entry>)
    requires forall i {:trigger Follows(rows[i], after)} :: 0 <= i < |rows| ==> !Follows(rows[i], after)
    ensures Selected(rows + rest, after) == Selected(rest, after)
  {
    if rows == [] {
      assert rows + rest == rest;
    } else {
      NoneSelected(rows[1..], rest, after);
      assert (rows + rest)[1..] == rows[1..] + rest;
    }
  }

  lemma FollowsRow(rows: seq<Entry>, n: nat, i: nat)
    requires Stored(rows) && n <= |rows| && i < |rows|
    ensures Follows(rows[i], Mark(rows, n)) <==> n <= i
  {
    if 0 < n {
      assert Shaped(rows[i]) && Shaped(rows[n - 1]);
      TextIrreflexive(rows[i].id);
      if n <= i {
        assert NumericallyBefore(rows[n - 1], rows[i]);
      } else if i < n - 1 {
        assert NumericallyBefore(rows[i], rows[n - 1]);
        TextTotal(rows[i].id, rows[n - 1].id);
      }
    }
  }

  /** What follows a row is the rest of the list. */
  lemma SelectedAfterRow(rows: seq<Entry>, n: nat)
    requires Stored(rows) && n <= |rows|
    ensures Selected(rows, Mark(rows, n)) == rows[n..]
  {
    var after, front, rest := Mark(rows, n), rows[..n], rows[n..];
    assert rows == front + rest;
    forall i | 0 <= i < |front| ensures !Follows(front[i], after) {
      FollowsRow(rows, n, i);
    }
    forall i | 0 <= i < |rest| ensures Follows(rest[i], after) {
      assert rest[i] == rows[n + i];
      FollowsRow(rows, n, n + i);
    }
    NoneSelected(front, rest, after);
    AllSelected(rest, after);
  }

  /** One page that continues after the first `n` rows. */
  lemma ServedPage(rows: seq<Entry>, n: nat, limit: nat) returns (m: nat)
    requires Stored(rows) && n <= |rows| && 0 < limit <= MAX_ITEMS
    ensures m == if |rows| - n > limit then n + limit else |rows|
    ensures Served(rows, Mark(rows, n), limit) == Page(rows[n..m], if m < |rows| then Mark(rows, m) else None)
    ensures Accepted(Served(rows, Mark(rows, n), limit), Mark(rows, n), limit)
  {
    m := if |rows| - n > limit then n + limit else |rows|;
    var rest := Selected(rows, Mark(rows, n));
    SelectedAfterRow(rows, n);
    StoredGood(rows);
    SliceGood(rows, n, m);
    SliceWellformed(rows, n, m);
    assert m < |rows| ==> rest[..limit] == rows[n..m];
  }

  lemma ChainGrows(pages: seq<Page>, last: Page, limit: nat)
    requires Chain(pages, limit) && Accepted(last, After(pages, |pages|), limit)
    requires pages != [] ==> After(pages, |pages|).Some?
    ensures Chain(pages + [last], limit) && Rows(pages + [last]) == Rows(pages) + last.items
  {
    var all := pages + [last];
    assert all[..|pages|] == pages;
    forall k | 0 <= k < |all| ensures Accepted(all[k], After(all, k), limit) && (k > 0 ==> After(all, k).Some?) {
      assert After(all, k) == After(pages, k);
    }
  }

  /** The pages of an honest server, each asked for with the cursor of the one before. */
  ghost predicate Honest(rows: seq<Entry>, pages: seq<Page>, limit: nat)
    requires limit > 0
  {
    && (forall k {:trigger After(pages, k)} :: 0 <= k < |pages| ==> pages[k] == Served(rows, After(pages, k), limit))
    && (forall k {:trigger After(pages, k)} :: 0 < k < |pages| ==> After(pages, k).Some?)
  }

  lemma HonestStep(rows: seq<Entry>, pages: seq<Page>, last: Page, n: nat, limit: nat)
    requires Stored(rows) && 0 < limit <= MAX_ITEMS && n <= |rows|
    requires Chain(pages, limit) && Rows(pages) == rows[..n] && After(pages, |pages|) == Mark(rows, n)
    requires pages != [] ==> After(pages, |pages|).Some?
    requires last == Served(rows, Mark(rows, n), limit)
    ensures var all := pages + [last];
            && Chain(all, limit) && |Rows(all)| <= |rows| && Rows(all) == rows[..|Rows(all)|]
            && (last.next.None? <==> Rows(all) == rows)
            && (last.next.Some? ==> last.next == Mark(rows, |Rows(all)|) && |Rows(all)| == n + limit < |rows|)
            && (last.next.None? ==> |rows| <= n + limit)
  {
    var m := ServedPage(rows, n, limit);
    ChainGrows(pages, last, limit);
    assert rows[..n] + rows[n..m] == rows[..m];
  }

  /** They are accepted, and list exactly the stored rows once a page has no cursor. */
  lemma {:induction false} HonestChain(rows: seq<Entry>, pages: seq<Page>, limit: nat)
    requires Stored(rows) && 0 < limit <= MAX_ITEMS && Honest(rows, pages, limit)
    ensures Chain(pages, limit)
    ensures |Rows(pages)| <= |rows| && Rows(pages) == rows[..|Rows(pages)|]
    ensures pages != [] ==> (After(pages, |pages|).None? <==> Rows(pages) == rows)
    ensures After(pages, |pages|).Some? ==> After(pages, |pages|) == Mark(rows, |Rows(pages)|)
    ensures pages == [] ==> Rows(pages) == []
  {
    if pages != [] {
      var init, last := pages[..|pages| - 1], pages[|pages| - 1];
      HonestInit(rows, pages, limit);
      HonestChain(rows, init, limit);
      assert After(pages, |init|) == After(init, |init|) == Mark(rows, |Rows(init)|);
      HonestStep(rows, init, last, |Rows(init)|, limit);
      assert pages == init + [last];
    }
  }

  lemma OneMore(limit: nat, k: nat, held: nat)
    requires k > 0 && held == limit * (k - 1)
    ensures held + limit == limit * k
  {
  }

  /** Every page but the last is full, and the last is the one that holds the end of the rows. */
  lemma {:induction false} HonestLength(rows: seq<Entry>, pages: seq<Page>, limit: nat)
    requires Stored(rows) && 0 < limit <= MAX_ITEMS && Honest(rows, pages, limit)
    ensures After(pages, |pages|).Some? ==> |Rows(pages)| == limit * |pages|
    ensures pages != [] ==> (After(pages, |pages|).None? <==> |rows| <= limit * |pages|)
  {
    if pages != [] {
      var init, last := pages[..|pages| - 1], pages[|pages| - 1];
      HonestInit(rows, pages, limit);
      HonestChain(rows, init, limit);
      HonestLength(rows, init, limit);
      assert After(pages, |init|) == After(init, |init|) == Mark(rows, |Rows(init)|);
      HonestStep(rows, init, last, |Rows(init)|, limit);
      assert pages == init + [last];
      OneMore(limit, |pages|, |Rows(init)|);
    }
  }

  lemma HonestInit(rows: seq<Entry>, pages: seq<Page>, limit: nat)
    requires limit > 0 && Honest(rows, pages, limit) && pages != []
    ensures Honest(rows, pages[..|pages| - 1], limit)
    ensures pages[|pages| - 1] == Served(rows, After(pages, |pages| - 1), limit)
    ensures After(pages[..|pages| - 1], |pages| - 1) == After(pages, |pages| - 1)
    ensures |pages| > 1 ==> After(pages, |pages| - 1).Some?
  {
    var init := pages[..|pages| - 1];
    assert forall k {:trigger After(init, k)} :: 0 <= k <= |init| ==> After(init, k) == After(pages, k);
  }

  lemma HonestExtends(rows: seq<Entry>, pages: seq<Page>, limit: nat)
    requires limit > 0 && Honest(rows, pages, limit) && (pages != [] ==> After(pages, |pages|).Some?)
    ensures Honest(rows, pages + [Served(rows, After(pages, |pages|), limit)], limit)
  {
    var all := pages + [Served(rows, After(pages, |pages|), limit)];
    assert forall k {:trigger After(all, k)} :: 0 <= k <= |pages| ==> After(all, k) == After(pages, k);
  }

  /** Following the cursors from anywhere reaches a page without one, after exactly the pages that the rows
      need. */
  lemma {:induction false} HonestEnds(rows: seq<Entry>, pages: seq<Page>, limit: nat) returns (all: seq<Page>)
    requires Stored(rows) && 0 < limit <= MAX_ITEMS && Honest(rows, pages, limit)
    requires pages != [] ==> After(pages, |pages|).Some?
    ensures pages < all && Honest(rows, all, limit) && After(all, |all|).None? && Rows(all) == rows
    ensures |rows| <= limit * |all| && (|all| == 1 || limit * (|all| - 1) < |rows|)
    decreases |rows| - |Rows(pages)|
  {
    all := pages + [Served(rows, After(pages, |pages|), limit)];
    HonestExtends(rows, pages, limit);
    HonestChain(rows, pages, limit);
    HonestChain(rows, all, limit);
    HonestLength(rows, pages, limit);
    HonestLength(rows, all, limit);
    if After(all, |all|).Some? {
      all := HonestEnds(rows, all, limit);
    }
  }
}
