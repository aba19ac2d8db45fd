/** The paged reader of the pair table, against a server that may answer anything. */
module Loader {
  import opened Model
  import opened Results
  import opened Ordering
  import opened Decimal
  import opened Identity

  const MAX_PAIRS: nat := 200000
  const MAX_WALLETS: nat := 5000
  const PAGE: nat := 200
  const MAX_CURSOR: nat := 1024
  const MAX_SAFE: nat := 9007199254740991

  /** The `next_cursor` field: null, a string, or anything else. */
  datatype Next = Null | Text(text: string) | Other

  /** One response; a field of the wrong shape is `None`. */
  datatype Page = Page(artifact: string, table: string, rows: Option<seq<Option<Row>>>, next: Next)

  /** The answer to request number `i` with a cursor; `None` is a failed read. Numbering the
      requests lets a server answer the same cursor differently every time. */
  type Server = (nat, Option<string>) -> Option<Page>

  // ----- fields -----

  /** A decimal count of at most sixteen digits that is a safe integer. */
  function Count(s: string): Option<nat> {
    if Canonical(s) && |s| <= 16 && Value(s) <= MAX_SAFE then Some(Value(s)) else None
  }

  predicate Base58(c: char) {
    || '1' <= c <= '9' || 'A' <= c <= 'H' || 'J' <= c <= 'N' || 'P' <= c <= 'Z'
    || 'a' <= c <= 'k' || 'm' <= c <= 'z'
  }

  predicate Address(s: string) {
    32 <= |s| <= 44 && forall i :: 0 <= i < |s| ==> Base58(s[i])
  }

  // ----- rows -----

  /** A row that may stand at `ordinal`, whatever came before it. */
  predicate RowOk(row: Row, ordinal: nat) {
    && row.rowId == Print(ordinal)
    && Address(row.fieldA.form) && Address(row.fieldB.form) && TextLess(row.fieldA.form, row.fieldB.form)
    && Count(row.sharedMints).Some? && Count(row.sharedMints).value > 0
    && Count(row.aFirst).Some? && Count(row.bFirst).Some? && Count(row.sameTransaction).Some?
    && Count(row.aFirst).value + Count(row.bFirst).value + Count(row.sameTransaction).value
       == Count(row.sharedMints).value
  }

  /** `q` does not step backwards from `p`: signers are ordered by their printed forms, but the second
      ones are compared only where the first are the same value. */
  predicate Follows(p: Row, q: Row) {
    && !TextLess(q.fieldA.form, p.fieldA.form)
    && !(q.SignerA() == p.SignerA() && !TextLess(p.fieldB.form, q.fieldB.form))
  }

  /** The checks of one row, kept apart from the paging they take part in. */
  datatype Rules = Rules(ok: (Row, nat) -> bool, follows: (Row, Row) -> bool)

  /** The rules of the pair table. */
  const PAIR_RULES: Rules := Rules(RowOk, Follows)

  /** The wallets of the rows in order of first appearance. */
  function Participants(rows: seq<Row>): seq<Signer> {
    if rows == [] then []
    else
      var last := rows[|rows| - 1];
      Including(Including(Participants(rows[..|rows| - 1]), last.SignerA()), last.SignerB())
  }

  /** A table the reader may return: rows numbered from zero, none stepping backwards, and at most the
      admitted number of wallets. */
  ghost predicate ValidTable(r: Rules, rows: seq<Row>) {
    && (forall i :: 0 <= i < |rows| ==> InPlace(r, rows, i))
    && |Participants(rows)| <= MAX_WALLETS
  }

  /** Row `i` has its ordinal and comes after the row before it. */
  ghost predicate InPlace(r: Rules, rows: seq<Row>, i: nat)
    requires i < |rows|
  {
    r.ok(rows[i], i) && (i > 0 ==> r.follows(rows[i - 1], rows[i]))
  }

  lemma ParticipantsAppend(rows: seq<Row>, row: Row)
    ensures Participants(rows + [row]) == Including(Including(Participants(rows), row.SignerA()), row.SignerB())
    ensures |Participants(rows)| <= |Participants(rows + [row])|
  {
  }

  lemma {:induction false} ParticipantsGrow(rows: seq<Row>, k: nat)
    requires k <= |rows|
    ensures |Participants(rows[..k])| <= |Participants(rows)|
  {
    if k < |rows| {
      var init := rows[..|rows| - 1];
      ParticipantsGrow(init, k);
      assert init[..k] == rows[..k];
      assert rows == init + [rows[|rows| - 1]];
      ParticipantsAppend(init, rows[|rows| - 1]);
    } else {
      assert rows[..k] == rows;
    }
  }

  lemma {:induction false} ParticipantsExact(rows: seq<Row>)
    ensures Distinct(Participants(rows))
    ensures forall i :: 0 <= i < |rows| ==>
              rows[i].SignerA() in Participants(rows) && rows[i].SignerB() in Participants(rows)
  {
    if rows != [] {
      var init, last := rows[..|rows| - 1], rows[|rows| - 1];
      ParticipantsExact(init);
      assert rows == init + [last];
      var ws := Participants(init);
      DistinctAppend(ws, last.SignerA());
      DistinctAppend(Including(ws, last.SignerA()), last.SignerB());
      forall i | 0 <= i < |rows|
        ensures rows[i].SignerA() in Participants(rows) && rows[i].SignerB() in Participants(rows)
      {
        assert i < |init| ==> rows[i] == init[i];
      }
    }
  }

  /** Whether one more row keeps the table valid. */
  lemma TableAppend(r: Rules, rows: seq<Row>, row: Row)
    requires ValidTable(r, rows)
    ensures ValidTable(r, rows + [row]) <==>
            && r.ok(row, |rows|) && (rows != [] ==> r.follows(rows[|rows| - 1], row))
            && |Participants(rows + [row])| <= MAX_WALLETS
  {
    var all := rows + [row];
    assert InPlace(r, all, |rows|) <==> r.ok(row, |rows|) && (rows != [] ==> r.follows(rows[|rows| - 1], row));
    forall i | 0 <= i < |rows| ensures InPlace(r, all, i) {
      assert InPlace(r, rows, i);
    }
  }

  lemma TablePrefix(r: Rules, rows: seq<Row>, k: nat)
    requires ValidTable(r, rows) && k <= |rows|
    ensures ValidTable(r, rows[..k])
  {
    ParticipantsGrow(rows, k);
    forall i | 0 <= i < k ensures InPlace(r, rows[..k], i) {
      assert InPlace(r, rows, i);
    }
  }

  // ----- exchanges -----

  /** All rows of a page, if every one is well shaped. */
  ghost predicate Shaped(page: Page) {
    page.rows.Some? && forall i :: 0 <= i < |page.rows.value| ==> page.rows.value[i].Some?
  }

  ghost function RowsIn(page: Page): seq<Row>
    requires Shaped(page)
  {
    seq(|page.rows.value|, i requires 0 <= i < |page.rows.value| => page.rows.value[i].value)
  }

  ghost function RowsOf(pages: seq<Page>): seq<Row>
    requires forall i :: 0 <= i < |pages| ==> Shaped(pages[i])
  {
    if pages == [] then [] else RowsOf(pages[..|pages| - 1]) + RowsIn(pages[|pages| - 1])
  }

  /** The cursor sent with request `i`. */
  ghost function CursorAt(pages: seq<Page>, i: nat): Option<string>
    requires i <= |pages|
  {
    if i > 0 && pages[i - 1].next.Text? then Some(pages[i - 1].next.text) else None
  }

  /** Page `i` is full and hands out a fresh cursor. */
  ghost predicate Continues(pages: seq<Page>, i: nat)
    requires i < |pages|
  {
    && pages[i].next.Text? && 0 < |pages[i].next.text| <= MAX_CURSOR
    && Shaped(pages[i]) && |pages[i].rows.value| == PAGE
    && forall j :: 0 <= j < i ==> pages[j].next != pages[i].next
  }

  /** The pages were answered in turn, each to the cursor of the one before, and all but the last
      continue. */
  ghost predicate Answered(server: Server, artifact: string, pages: seq<Page>) {
    && (forall i :: 0 <= i < |pages| ==>
          && pages[i].artifact == artifact && pages[i].table == "pairs"
          && Shaped(pages[i]) && |pages[i].rows.value| <= PAGE)
    && (forall i :: 0 <= i < |pages| - 1 ==> Continues(pages, i))
    && (forall i {:trigger CursorAt(pages, i)} :: 0 <= i < |pages| ==> server(i, CursorAt(pages, i)) == Some(pages[i]))
  }

  /** A finished exchange that delivers `rows`. */
  ghost predicate Delivers(server: Server, artifact: string, pages: seq<Page>, rows: seq<Row>) {
    && |pages| > 0 && Answered(server, artifact, pages) && pages[|pages| - 1].next.Null? && RowsOf(pages) == rows
  }

  lemma {:induction false} RowsPrefix(pages: seq<Page>, k: nat)
    requires (forall i :: 0 <= i < |pages| ==> Shaped(pages[i])) && k <= |pages|
    ensures RowsOf(pages[..k]) <= RowsOf(pages)
  {
    if k < |pages| {
      RowsPrefix(pages[..|pages| - 1], k);
      assert pages[..|pages| - 1][..k] == pages[..k];
    } else {
      assert pages[..k] == pages;
    }
  }

  lemma RowsAppend(pages: seq<Page>, page: Page)
    requires (forall i :: 0 <= i < |pages| ==> Shaped(pages[i])) && Shaped(page)
    ensures RowsOf(pages + [page]) == RowsOf(pages) + RowsIn(page)
  {
  }

  lemma PagePrefix(pages: seq<Page>, i: nat) returns (rows: seq<Row>)
    requires (forall i :: 0 <= i < |pages| ==> Shaped(pages[i])) && i < |pages|
    ensures rows == RowsOf(pages[..i]) + RowsIn(pages[i]) && rows <= RowsOf(pages)
    ensures i == |pages| - 1 ==> rows == RowsOf(pages)
  {
    rows := RowsOf(pages[..i]) + RowsIn(pages[i]);
    RowsPrefix(pages, i + 1);
    RowsAppend(pages[..i], pages[i]);
    assert pages[..i + 1] == pages[..i] + [pages[i]];
    if i == |pages| - 1 {
      assert pages[..i + 1] == pages;
    }
  }

  /** What a delivering exchange says about its page `i`. */
  lemma DeliveredPage(r: Rules, server: Server, artifact: string, pages: seq<Page>, table: seq<Row>, i: nat)
    requires Delivers(server, artifact, pages, table) && ValidTable(r, table) && i < |pages|
    ensures Shaped(pages[i]) && RowsOf(pages[..i]) + RowsIn(pages[i]) <= table
    ensures ValidTable(r, RowsOf(pages[..i]) + RowsIn(pages[i]))
    ensures i == |pages| - 1 ==> RowsOf(pages[..i]) + RowsIn(pages[i]) == table
  {
    var rows := PagePrefix(pages, i);
    TablePrefix(r, table, |rows|);
    assert table[..|rows|] == rows;
  }

  // ----- the reader -----

  method AcceptRow(r: Rules, row: Option<Row>, ordinal: nat, wallets: seq<Signer>, previous: Option<Row>)
    returns (ok: bool, wallets': seq<Signer>)
    ensures ok <==>
            && row.Some? && r.ok(row.value, ordinal) && (previous.Some? ==> r.follows(previous.value, row.value))
            && |Including(Including(wallets, row.value.SignerA()), row.value.SignerB())| <= MAX_WALLETS
    ensures ok ==> wallets' == Including(Including(wallets, row.value.SignerA()), row.value.SignerB())
  {
    ok, wallets' := false, wallets;
    if row.None? || !r.ok(row.value, ordinal) || (previous.Some? && !r.follows(previous.value, row.value)) {
      return;
    }
    wallets' := Including(wallets, row.value.SignerA());
    wallets' := Including(wallets', row.value.SignerB());
    ok := |wallets'| <= MAX_WALLETS;
  }

  /** Check one row against the table so far and push it. */
  method TakeRow(r: Rules, row: Option<Row>, rows: seq<Row>, wallets: seq<Signer>)
    returns (ok: bool, rows': seq<Row>, wallets': seq<Signer>)
    requires ValidTable(r, rows) && wallets == Participants(rows)
    ensures ok <==> row.Some? && ValidTable(r, rows + [row.value])
    ensures ok ==> rows' == rows + [row.value] && wallets' == Participants(rows')
  {
    var previous := if rows == [] then None else Some(rows[|rows| - 1]);
    if row.Some? {
      ParticipantsAppend(rows, row.value);
      TableAppend(r, rows, row.value);
    }
    ok, wallets' := AcceptRow(r, row, |rows|, wallets, previous);
    rows' := if ok then rows + [row.value] else rows;
  }

  ghost function Taken(page: Page, j: nat): seq<Row>
    requires ShapedTo(page, j)
  {
    seq(j, i requires 0 <= i < j => page.rows.value[i].value)
  }

  ghost predicate ShapedTo(page: Page, j: nat) {
    page.rows.Some? && j <= |page.rows.value| && forall i :: 0 <= i < j ==> page.rows.value[i].Some?
  }

  /** The whole page is well shaped and keeps the table valid. */
  ghost predicate Acceptable(r: Rules, page: Page, rows: seq<Row>) {
    Shaped(page) && ValidTable(r, rows + RowsIn(page))
  }

  lemma NextRow(r: Rules, page: Page, rows: seq<Row>, upTo: seq<Row>, j: nat)
    requires ShapedTo(page, j) && j < |page.rows.value| && upTo == rows + Taken(page, j)
    ensures page.rows.value[j].Some? ==>
              ShapedTo(page, j + 1) && upTo + [page.rows.value[j].value] == rows + Taken(page, j + 1)
    ensures Acceptable(r, page, rows) ==> page.rows.value[j].Some? && ValidTable(r, upTo + [page.rows.value[j].value])
  {
    if page.rows.value[j].Some? {
      assert Taken(page, j + 1) == Taken(page, j) + [page.rows.value[j].value];
      if Acceptable(r, page, rows) {
        var k := |rows| + j + 1;
        TablePrefix(r, rows + RowsIn(page), k);
        assert (rows + RowsIn(page))[..k] == rows + Taken(page, j + 1);
      }
    }
  }

  lemma WholePage(r: Rules, page: Page, rows: seq<Row>, upTo: seq<Row>)
    requires page.rows.Some? && ShapedTo(page, |page.rows.value|) && upTo == rows + Taken(page, |page.rows.value|)
    ensures Shaped(page) && upTo == rows + RowsIn(page)
  {
  }

  /** Every row of a page in turn, each checked against the one before. */
  method AcceptPage(r: Rules, page: Page, rows: seq<Row>, wallets: seq<Signer>)
    returns (ok: bool, rows': seq<Row>, wallets': seq<Signer>)
    requires page.rows.Some? && ValidTable(r, rows) && wallets == Participants(rows)
    ensures ok <==> Acceptable(r, page, rows)
    ensures ok ==> rows' == rows + RowsIn(page) && wallets' == Participants(rows')
  {
    ok, rows', wallets' := true, rows, wallets;
    var list := page.rows.value;
    for j := 0 to |list|
      invariant ok && ShapedTo(page, j) && rows' == rows + Taken(page, j)
      invariant ValidTable(r, rows') && wallets' == Participants(rows')
    {
      NextRow(r, page, rows, rows', j);
      ok, rows', wallets' := TakeRow(r, list[j], rows', wallets');
      if !ok {
        return;
      }
    }
    WholePage(r, page, rows, rows');
  }

  // ----- the reading loop -----

  datatype Loaded = Loaded(rows: seq<Row>, wallets: seq<Signer>)

  ghost predicate Issued(pages: seq<Page>, text: string) {
    exists i :: 0 <= i < |pages| && pages[i].next == Text(text)
  }

  /** The state of the loop after the pages seen so far, all of which continue. */
  ghost predicate Reading(r: Rules, server: Server, artifact: string, seen: seq<Page>, rows: seq<Row>,
                          wallets: seq<Signer>, cursors: set<string>) {
    && Answered(server, artifact, seen) && (forall i :: 0 <= i < |seen| ==> Continues(seen, i))
    && rows == RowsOf(seen) && ValidTable(r, rows) && wallets == Participants(rows)
    && (forall t :: t in cursors <==> Issued(seen, t))
  }

  /** A page that answers the current cursor for the right table, within its size. */
  ghost predicate Answers(server: Server, artifact: string, seen: seq<Page>, page: Page) {
    && server(|seen|, CursorAt(seen, |seen|)) == Some(page)
    && page.artifact == artifact && page.table == "pairs" && Shaped(page) && |page.rows.value| <= PAGE
  }

  lemma AnsweredMore(server: Server, artifact: string, seen: seq<Page>, page: Page)
    requires Answered(server, artifact, seen) && (forall i :: 0 <= i < |seen| ==> Continues(seen, i))
    requires Answers(server, artifact, seen, page)
    ensures Answered(server, artifact, seen + [page])
  {
    var all := seen + [page];
    forall i | 0 <= i < |all| - 1 ensures Continues(all, i) {
      assert Continues(seen, i);
    }
    forall i {:trigger CursorAt(all, i)} | 0 <= i < |all| ensures server(i, CursorAt(all, i)) == Some(all[i]) {
      assert CursorAt(all, i) == CursorAt(seen, i);
    }
  }

  lemma ContinueReading(r: Rules, server: Server, artifact: string, seen: seq<Page>, rows: seq<Row>,
                        wallets: seq<Signer>, cursors: set<string>, page: Page)
    requires Reading(r, server, artifact, seen, rows, wallets, cursors) && Answers(server, artifact, seen, page)
    requires ValidTable(r, rows + RowsIn(page)) && |page.rows.value| == PAGE
    requires page.next.Text? && 0 < |page.next.text| <= MAX_CURSOR && page.next.text !in cursors
    ensures Reading(r, server, artifact, seen + [page], rows + RowsIn(page), Participants(rows + RowsIn(page)),
                    cursors + {page.next.text})
  {
    var all := seen + [page];
    AnsweredMore(server, artifact, seen, page);
    RowsAppend(seen, page);
    forall i | 0 <= i < |all| ensures Continues(all, i) {
      if i < |seen| {
        assert Continues(seen, i);
      } else {
        assert !Issued(seen, page.next.text);
      }
    }
    forall t ensures t in cursors + {page.next.text} <==> Issued(all, t) {
      if Issued(seen, t) {
        var i :| 0 <= i < |seen| && seen[i].next == Text(t);
        assert all[i].next == Text(t);
      }
      assert all[|seen|] == page;
    }
  }

  lemma FinishReading(r: Rules, server: Server, artifact: string, seen: seq<Page>, rows: seq<Row>, wallets: seq<Signer>,
                      cursors: set<string>, page: Page)
    requires Reading(r, server, artifact, seen, rows, wallets, cursors) && Answers(server, artifact, seen, page)
    requires page.next.Null?
    ensures Delivers(server, artifact, seen + [page], rows + RowsIn(page))
  {
    AnsweredMore(server, artifact, seen, page);
    RowsAppend(seen, page);
  }

  /** A given exchange of a given table. */
  ghost predicate Expected(r: Rules, server: Server, artifact: string, pages: seq<Page>, table: seq<Row>) {
    Delivers(server, artifact, pages, table) && ValidTable(r, table)
  }

  /** A page that passes every check of the loop, where only the last page ends the table. */
  ghost predicate Passes(r: Rules, server: Server, artifact: string, seen: seq<Page>, page: Page, table: seq<Row>)
    requires forall i :: 0 <= i < |seen| ==> Shaped(seen[i])
  {
    && Answers(server, artifact, seen, page) && Acceptable(r, page, RowsOf(seen))
    && |RowsOf(seen)| + |page.rows.value| <= |table|
    && if page.next.Null? then RowsOf(seen) + RowsIn(page) == table
       else
         && page.next.Text? && 0 < |page.next.text| <= MAX_CURSOR
         && |page.rows.value| == PAGE && !Issued(seen, page.next.text)
  }

  lemma ExpectedAnswer(server: Server, artifact: string, pages: seq<Page>, table: seq<Row>, seen: seq<Page>)
    requires Delivers(server, artifact, pages, table) && |seen| < |pages| && seen == pages[..|seen|]
    ensures Answers(server, artifact, seen, pages[|seen|])
  {
    assert CursorAt(seen, |seen|) == CursorAt(pages, |seen|);
  }

  lemma ExpectedFresh(pages: seq<Page>, seen: seq<Page>)
    requires |seen| < |pages| && seen == pages[..|seen|] && Continues(pages, |seen|)
    ensures !Issued(seen, pages[|seen|].next.text)
  {
  }

  lemma ExpectedRows(r: Rules, server: Server, artifact: string, pages: seq<Page>, table: seq<Row>, seen: seq<Page>)
    requires Expected(r, server, artifact, pages, table) && |seen| < |pages| && seen == pages[..|seen|]
    requires forall i :: 0 <= i < |seen| ==> Shaped(seen[i])
    ensures Shaped(pages[|seen|]) && Acceptable(r, pages[|seen|], RowsOf(seen))
    ensures |RowsOf(seen)| + |pages[|seen|].rows.value| <= |table|
    ensures |seen| == |pages| - 1 ==> RowsOf(seen) + RowsIn(pages[|seen|]) == table
  {
    DeliveredPage(r, server, artifact, pages, table, |seen|);
  }

  lemma ExpectedEnd(server: Server, artifact: string, pages: seq<Page>, table: seq<Row>, k: nat)
    requires Delivers(server, artifact, pages, table) && k < |pages|
    ensures pages[k].next.Null? <==> k == |pages| - 1
    ensures !pages[k].next.Null? ==> Continues(pages, k)
  {
    assert k < |pages| - 1 ==> Continues(pages, k);
  }

  lemma ExpectedNext(server: Server, artifact: string, pages: seq<Page>, table: seq<Row>, seen: seq<Page>, page: Page)
    requires Delivers(server, artifact, pages, table) && |seen| < |pages|
    requires seen == pages[..|seen|] && page == pages[|seen|]
    ensures page.next.Null? ==> |seen| == |pages| - 1
    ensures !page.next.Null? ==>
              && |seen| + 1 < |pages| && seen + [page] == pages[..|seen| + 1]
              && page.next.Text? && 0 < |page.next.text| <= MAX_CURSOR && Shaped(page) && |page.rows.value| == PAGE
              && !Issued(seen, page.next.text)
  {
    ExpectedEnd(server, artifact, pages, table, |seen|);
    if !page.next.Null? {
      ExpectedFresh(pages, seen);
    }
  }

  /** While the loop follows a delivering exchange, its next page passes every check. */
  lemma ExpectedPage(r: Rules, server: Server, artifact: string, pages: seq<Page>, table: seq<Row>, seen: seq<Page>,
                     page: Page)
    requires Expected(r, server, artifact, pages, table)
    requires |seen| < |pages| && seen == pages[..|seen|] && page == pages[|seen|]
    requires forall i :: 0 <= i < |seen| ==> Shaped(seen[i])
    ensures Passes(r, server, artifact, seen, page, table)
    ensures !page.next.Null? ==> |seen| + 1 < |pages| && seen + [page] == pages[..|seen| + 1]
  {
    ExpectedRows(r, server, artifact, pages, table, seen);
    ExpectedAnswer(server, artifact, pages, table, seen);
    ExpectedNext(server, artifact, pages, table, seen, page);
  }

  /** One request and the checks on its envelope. */
  method Fetch(server: Server, artifact: string, request: nat, cursor: Option<string>, room: int)
    returns (page: Option<Page>)
    ensures page.Some? <==>
            && server(request, cursor).Some? && server(request, cursor).value.artifact == artifact
            && server(request, cursor).value.table == "pairs" && server(request, cursor).value.rows.Some?
            && |server(request, cursor).value.rows.value| <= PAGE && |server(request, cursor).value.rows.value| <= room
    ensures page.Some? ==> page == server(request, cursor)
  {
    page := server(request, cursor);
    if page.None? || page.value.artifact != artifact || page.value.table != "pairs" || page.value.rows.None? {
      return None;
    }
    if |page.value.rows.value| > PAGE || |page.value.rows.value| > room {
      return None;
    }
  }

  /** One turn of the loop: a page comes back exactly when it answers the cursor, fits and keeps the table valid. */
  method TakePage(r: Rules, server: Server, artifact: string, request: nat, cursor: Option<string>, room: int,
                  rows: seq<Row>, wallets: seq<Signer>, ghost seen: seq<Page>)
    returns (page: Option<Page>, rows': seq<Row>, wallets': seq<Signer>)
    requires ValidTable(r, rows) && wallets == Participants(rows)
    requires request == |seen| && cursor == CursorAt(seen, |seen|)
    ensures page.Some? ==>
              && Answers(server, artifact, seen, page.value)
              && Acceptable(r, page.value, rows) && |page.value.rows.value| <= room
              && rows' == rows + RowsIn(page.value) && wallets' == Participants(rows')
    ensures forall p :: Answers(server, artifact, seen, p) && Acceptable(r, p, rows) && |p.rows.value| <= room ==>
              page == Some(p)
  {
    rows', wallets' := rows, wallets;
    page := Fetch(server, artifact, request, cursor, room);
    if page.Some? {
      var ok;
      ok, rows', wallets' := AcceptPage(r, page.value, rows, wallets);
      if !ok {
        page := None;
      }
    }
  }

  /** Read the whole table or fail. `pages` and `table` are any exchange the server could have with
      the reader; `seen` is the one it had. */
  method Load(r: Rules, artifact: string, total: string, server: Server, ghost pages: seq<Page>, ghost table: seq<Row>)
    returns (out: Option<Loaded>, ghost seen: seq<Page>)
    ensures out.Some? ==>
              && Digest(artifact) && Count(total) == Some(|out.value.rows|) && |out.value.rows| <= MAX_PAIRS
              && Expected(r, server, artifact, seen, out.value.rows)
              && out.value.wallets == Sort(Participants(out.value.rows), PrintsBefore)
    ensures Digest(artifact) && Count(total) == Some(|table|) && |table| <= MAX_PAIRS
            && Expected(r, server, artifact, pages, table) ==>
              out.Some? && out.value.rows == table
  {
    seen, out := [], None;
    var expected := Count(total);
    if !Digest(artifact) || expected.None? || expected.value > MAX_PAIRS {
      return;
    }
    ghost var good := expected.value == |table| && Expected(r, server, artifact, pages, table);
    var rows: seq<Row>, wallets: seq<Signer>, cursors: set<string> := [], [], {};
    var cursor: Option<string>, request: nat := None, 0;
    while true
      invariant Reading(r, server, artifact, seen, rows, wallets, cursors)
      invariant request == |seen| && cursor == CursorAt(seen, |seen|) && |rows| <= expected.value
      invariant good ==> |seen| < |pages| && seen == pages[..|seen|]
      decreases expected.value - |rows|
    {
      if good {
        ExpectedPage(r, server, artifact, pages, table, seen, pages[|seen|]);
      }
      var answer, rows', wallets' := TakePage(r, server, artifact, request, cursor, expected.value - |rows|, rows,
                                              wallets, seen);
      if answer.None? {
        return;
      }
      var page := answer.value;
      match page.next {
        case Null =>
          FinishReading(r, server, artifact, seen, rows, wallets, cursors, page);
          seen := seen + [page];
          if |rows'| == expected.value {
            out := Some(Loaded(rows', Sort(wallets', PrintsBefore)));
          }
          return;
        case Other =>
          return;
        case Text(next) =>
          if |next| == 0 || |next| > MAX_CURSOR || next in cursors || |page.rows.value| != PAGE {
            return;
          }
          ContinueReading(r, server, artifact, seen, rows, wallets, cursors, page);
          cursors, cursor, request := cursors + {next}, Some(next), request + 1;
          seen, rows, wallets := seen + [page], rows', wallets';
      }
    }
  }
}
