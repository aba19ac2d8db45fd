/** The repository's own pair-table route, and the proof that the reader recovers a table from it. */
module Service {
  import opened Model
  import opened Results
  import opened Decimal
  import opened Identity
  import opened Loader
  import Cursor
  import Ordering
  import Committed

  /** The rows from `start` on, at most one page of them. */
  function Slice(table: seq<Row>, start: nat): (rows: seq<Row>)
    ensures |rows| <= PAGE
  {
    if start >= |table| then []
    else if start + PAGE <= |table| then table[start..start + PAGE]
    else table[start..]
  }

  function Listed(rows: seq<Row>): seq<Option<Row>> {
    seq(|rows|, i requires 0 <= i < |rows| => Some(rows[i]))
  }

  /** One response: only a full page hands out a cursor, and it names its last row. */
  function PageFrom(artifact: string, table: seq<Row>, start: nat): Option<Page>
    requires Digest(artifact)
  {
    var rows := Slice(table, start);
    if |rows| < PAGE then Some(Page(artifact, "pairs", Some(Listed(rows)), Null))
    else
      var id := rows[|rows| - 1].rowId;
      if !Canonical(id) then None
      else Some(Page(artifact, "pairs", Some(Listed(rows)),
                     Text(Cursor.PageCursor(artifact, Cursor.Pairs, None, Value(id)))))
  }

  /** The route: resolve the cursor for this artifact's pair table, page from the next row, and refuse a
      response that exceeds the configured size. */
  function Serve(read: Cursor.Reader, artifact: string, table: seq<Row>, fits: Page -> bool): Server
    requires Digest(artifact)
  {
    (request: nat, cursor: Option<string>) =>
      var after := Cursor.CursorAfter(read, cursor, artifact, Cursor.Pairs, None);
      if after.Err? || after.value < -1 then None
      else
        var page := PageFrom(artifact, table, after.value + 1);
        if page.Some? && fits(page.value) then page else None
  }

  /** A table the route can hold: rows numbered from zero. */
  ghost predicate Numbered(table: seq<Row>) {
    forall i :: 0 <= i < |table| ==> table[i].rowId == Print(i)
  }

  // ----- pages under any naming of ordinals by cursors -----

  /** Cursor texts that fit and tell ordinals apart. */
  ghost predicate Tokens(text: nat -> string) {
    && (forall n: nat :: n < MAX_PAIRS ==> 0 < |text(n)| <= MAX_CURSOR)
    && (forall n: nat, m: nat :: n < MAX_PAIRS && m < MAX_PAIRS && text(n) == text(m) ==> n == m)
  }

  /** Page `k` of the table. */
  ghost function PageAt(artifact: string, table: seq<Row>, text: nat -> string, k: nat): Page {
    var rows := Slice(table, PAGE * k);
    Page(artifact, "pairs", Some(Listed(rows)), if |rows| < PAGE then Null else Text(text(PAGE * k + PAGE - 1)))
  }

  ghost function Pages(artifact: string, table: seq<Row>, text: nat -> string): seq<Page> {
    seq(|table| / PAGE + 1, k requires 0 <= k => PageAt(artifact, table, text, k))
  }

  ghost function Asked(text: nat -> string, k: nat): Option<string> {
    if k == 0 then None else Some(text(PAGE * k - 1))
  }

  lemma SliceSize(table: seq<Row>, k: nat)
    ensures |Slice(table, PAGE * k)| == PAGE <==> k < |table| / PAGE
  {
  }

  lemma RowsInPage(artifact: string, table: seq<Row>, text: nat -> string, k: nat)
    ensures Shaped(PageAt(artifact, table, text, k))
    ensures RowsIn(PageAt(artifact, table, text, k)) == Slice(table, PAGE * k)
  {
  }

  lemma PagesShaped(artifact: string, table: seq<Row>, text: nat -> string)
    ensures forall i :: 0 <= i < |Pages(artifact, table, text)| ==> Shaped(Pages(artifact, table, text)[i])
  {
  }

  /** How many rows the first `k` pages hold. */
  function Through(table: seq<Row>, k: nat): (n: nat)
    ensures n <= |table|
  {
    if k <= |table| / PAGE then PAGE * k else |table|
  }

  lemma NextSlice(table: seq<Row>, k: nat)
    requires k <= |table| / PAGE
    ensures table[..Through(table, k)] + Slice(table, PAGE * k) == table[..Through(table, k + 1)]
  {
  }

  lemma OnePageMore(pages: seq<Page>, page: Page, k: nat)
    requires (forall i :: 0 <= i < |pages| ==> Shaped(pages[i])) && k < |pages| && page == pages[k]
    ensures RowsOf(pages[..k + 1]) == RowsOf(pages[..k]) + RowsIn(page)
  {
    assert pages[..k + 1] == pages[..k] + [page];
    RowsAppend(pages[..k], page);
  }

  lemma {:induction false} PagesHoldTable(artifact: string, table: seq<Row>, text: nat -> string, pages: seq<Page>,
                                          k: nat)
    requires pages == Pages(artifact, table, text) && k <= |table| / PAGE + 1
    requires forall i :: 0 <= i < |pages| ==> Shaped(pages[i])
    ensures RowsOf(pages[..k]) == table[..Through(table, k)]
  {
    if k > 0 {
      PagesHoldTable(artifact, table, text, pages, k - 1);
      RowsInPage(artifact, table, text, k - 1);
      OnePageMore(pages, PageAt(artifact, table, text, k - 1), k - 1);
      NextSlice(table, k - 1);
    }
  }

  lemma PagesContinue(artifact: string, table: seq<Row>, text: nat -> string, k: nat)
    requires Tokens(text) && |table| <= MAX_PAIRS && k < |table| / PAGE
    ensures Continues(Pages(artifact, table, text), k)
  {
  }

  lemma PagesAsk(artifact: string, table: seq<Row>, text: nat -> string, k: nat)
    requires k <= |table| / PAGE
    ensures CursorAt(Pages(artifact, table, text), k) == Asked(text, k)
  {
  }

  /** A server that answers each request with the next page delivers the whole table. */
  lemma PagesDeliver(server: Server, artifact: string, table: seq<Row>, text: nat -> string)
    requires Tokens(text) && |table| <= MAX_PAIRS
    requires forall k: nat {:trigger Asked(text, k)} :: k <= |table| / PAGE ==>
               server(k, Asked(text, k)) == Some(PageAt(artifact, table, text, k))
    ensures Delivers(server, artifact, Pages(artifact, table, text), table)
  {
    var pages := Pages(artifact, table, text);
    PagesShaped(artifact, table, text);
    PagesHoldTable(artifact, table, text, pages, |pages|);
    assert pages[..|pages|] == pages;
    forall i | 0 <= i < |pages| - 1 ensures Continues(pages, i) {
      PagesContinue(artifact, table, text, i);
    }
    forall i {:trigger CursorAt(pages, i)} | 0 <= i < |pages| ensures server(i, CursorAt(pages, i)) == Some(pages[i]) {
      PagesAsk(artifact, table, text, i);
    }
    SliceSize(table, |pages| - 1);
  }

  // ----- the route -----

  /** The route's own cursor texts. */
  ghost function PairCursor(artifact: string): nat -> string
    requires Digest(artifact)
  {
    (n: nat) => Cursor.PageCursor(artifact, Cursor.Pairs, None, n)
  }

  lemma CursorsAreTokens(artifact: string)
    requires Digest(artifact)
    ensures Tokens(PairCursor(artifact))
  {
    forall n: nat | n < MAX_PAIRS ensures 0 < |PairCursor(artifact)(n)| <= MAX_CURSOR {
      Cursor.GeneratedFits(artifact, Cursor.Pairs, None, n);
    }
    forall n: nat, m: nat | n < MAX_PAIRS && m < MAX_PAIRS && PairCursor(artifact)(n) == PairCursor(artifact)(m)
      ensures n == m
    {
      Cursor.CursorInjective(artifact, Cursor.Pairs, None, n, artifact, Cursor.Pairs, None, m);
    }
  }

  lemma PageFromIsPageAt(artifact: string, table: seq<Row>, k: nat)
    requires Digest(artifact) && Numbered(table)
    ensures PageFrom(artifact, table, PAGE * k) == Some(PageAt(artifact, table, PairCursor(artifact), k))
  {
    var rows := Slice(table, PAGE * k);
    if |rows| == PAGE {
      assert rows[PAGE - 1] == table[PAGE * k + PAGE - 1];
      PrintCanonical(PAGE * k + PAGE - 1);
    }
  }

  lemma CursorResolves(read: Cursor.Reader, artifact: string, n: nat)
    requires Digest(artifact) && Cursor.ReadsBack(read) && n < MAX_PAIRS
    ensures Cursor.CursorAfter(read, Some(PairCursor(artifact)(n)), artifact, Cursor.Pairs, None) == Ok(n as int)
  {
    var c := Cursor.PageCursor(artifact, Cursor.Pairs, None, n);
    Cursor.GeneratedFits(artifact, Cursor.Pairs, None, n);
    Cursor.AcceptedIffGenerated(read, c, artifact, Cursor.Pairs, None, n);
  }

  lemma ServeAt(read: Cursor.Reader, artifact: string, table: seq<Row>, fits: Page -> bool, k: nat,
                cursor: Option<string>, start: nat, page: Page)
    requires Digest(artifact) && Cursor.CursorAfter(read, cursor, artifact, Cursor.Pairs, None) == Ok(start - 1)
    requires PageFrom(artifact, table, start) == Some(page)
    ensures Serve(read, artifact, table, fits)(k, cursor) == if fits(page) then Some(page) else None
  {
  }

  lemma AskedResolves(read: Cursor.Reader, artifact: string, k: nat, start: nat, text: nat -> string)
    requires Digest(artifact) && Cursor.ReadsBack(read) && start == PAGE * k
    requires start <= MAX_PAIRS && text == PairCursor(artifact)
    ensures Cursor.CursorAfter(read, Asked(text, k), artifact, Cursor.Pairs, None) == Ok(start - 1)
  {
    if k > 0 {
      CursorResolves(read, artifact, start - 1);
    }
  }

  lemma PageStarts(table: seq<Row>, k: nat)
    requires k <= |table| / PAGE
    ensures PAGE * k <= |table|
  {
  }

  lemma RouteAnswers(read: Cursor.Reader, artifact: string, table: seq<Row>, fits: Page -> bool, k: nat,
                     text: nat -> string, start: nat, asked: Option<string>, page: Page)
    requires Digest(artifact) && Numbered(table) && Cursor.ReadsBack(read) && text == PairCursor(artifact)
    requires start == PAGE * k && start <= MAX_PAIRS
    requires asked == Asked(text, k) && page == PageAt(artifact, table, text, k)
    ensures Serve(read, artifact, table, fits)(k, asked) == if fits(page) then Some(page) else None
  {
    assert PageFrom(artifact, table, start) == Some(page) by {
      PageFromIsPageAt(artifact, table, k);
    }
    AskedResolves(read, artifact, k, start, text);
    ServeAt(read, artifact, table, fits, k, asked, start, page);
  }

  /** The route refuses no page of the table. */
  ghost predicate AllFit(artifact: string, table: seq<Row>, text: nat -> string, fits: Page -> bool) {
    forall k: nat {:trigger PageAt(artifact, table, text, k)} :: k <= |table| / PAGE ==>
      fits(PageAt(artifact, table, text, k))
  }

  /** If every page fits, the route's answers form an exchange that delivers the whole table. */
  lemma RouteDelivers(read: Cursor.Reader, artifact: string, table: seq<Row>, fits: Page -> bool, text: nat -> string)
    requires Digest(artifact) && Numbered(table) && Cursor.ReadsBack(read) && |table| <= MAX_PAIRS
    requires text == PairCursor(artifact) && AllFit(artifact, table, text, fits)
    ensures Delivers(Serve(read, artifact, table, fits), artifact, Pages(artifact, table, text), table)
  {
    CursorsAreTokens(artifact);
    RouteInTurn(read, artifact, table, fits, text);
    PagesDeliver(Serve(read, artifact, table, fits), artifact, table, text);
  }

  /** A page that continues is full, and its cursor asks for the next one. */
  lemma NextAsked(artifact: string, table: seq<Row>, text: nat -> string, seen: seq<Page>, k: nat)
    requires k < |seen| && seen[k] == PageAt(artifact, table, text, k) && Continues(seen, k)
    ensures k + 1 <= |table| / PAGE && CursorAt(seen, k + 1) == Asked(text, k + 1)
  {
    SliceSize(table, k);
    RowsInPage(artifact, table, text, k);
  }

  lemma AnsweredAt(server: Server, artifact: string, seen: seq<Page>, k: nat)
    requires Answered(server, artifact, seen) && k < |seen|
    ensures server(k, CursorAt(seen, k)) == Some(seen[k])
    ensures k > 0 ==> Continues(seen, k - 1)
  {
  }

  /** The server answers the cursors in turn with the table's pages, as far as they fit. */
  ghost predicate AnswersInTurn(server: Server, artifact: string, table: seq<Row>, fits: Page -> bool,
                                text: nat -> string)
  {
    forall k: nat {:trigger Asked(text, k)} :: k <= |table| / PAGE ==>
      server(k, Asked(text, k))
      == if fits(PageAt(artifact, table, text, k)) then Some(PageAt(artifact, table, text, k)) else None
  }

  /** Any exchange with such a server runs through the table's pages, all of which fit. */
  lemma {:induction false} AnsweredPages(server: Server, artifact: string, table: seq<Row>, fits: Page -> bool,
                                         text: nat -> string, seen: seq<Page>, k: nat)
    requires AnswersInTurn(server, artifact, table, fits, text) && Answered(server, artifact, seen) && k < |seen|
    ensures k <= |table| / PAGE && seen[k] == PageAt(artifact, table, text, k) && fits(seen[k])
  {
    AnsweredAt(server, artifact, seen, k);
    if k > 0 {
      AnsweredPages(server, artifact, table, fits, text, seen, k - 1);
      NextAsked(artifact, table, text, seen, k - 1);
    } else {
      assert CursorAt(seen, 0) == Asked(text, 0);
    }
  }

  /** A finished exchange with such a server has seen every page of the table. */
  lemma FinishedFits(server: Server, artifact: string, table: seq<Row>, fits: Page -> bool, text: nat -> string,
                     seen: seq<Page>, rows: seq<Row>)
    requires AnswersInTurn(server, artifact, table, fits, text) && Delivers(server, artifact, seen, rows)
    ensures AllFit(artifact, table, text, fits)
  {
    var last := |seen| - 1;
    AnsweredPages(server, artifact, table, fits, text, seen, last);
    SliceSize(table, last);
    forall k: nat {:trigger PageAt(artifact, table, text, k)} | k <= |table| / PAGE
      ensures fits(PageAt(artifact, table, text, k))
    {
      AnsweredPages(server, artifact, table, fits, text, seen, k);
    }
  }

  lemma RouteInTurn(read: Cursor.Reader, artifact: string, table: seq<Row>, fits: Page -> bool, text: nat -> string)
    requires Digest(artifact) && Numbered(table) && Cursor.ReadsBack(read)
    requires |table| <= MAX_PAIRS && text == PairCursor(artifact)
    ensures AnswersInTurn(Serve(read, artifact, table, fits), artifact, table, fits, text)
  {
    forall k: nat {:trigger Asked(text, k)} | k <= |table| / PAGE
      ensures Serve(read, artifact, table, fits)(k, Asked(text, k)) ==
              if fits(PageAt(artifact, table, text, k)) then Some(PageAt(artifact, table, text, k)) else None
    {
      PageStarts(table, k);
      RouteAnswers(read, artifact, table, fits, k, text, PAGE * k, Asked(text, k), PageAt(artifact, table, text, k));
    }
  }

  /** The pages of a finished exchange are the table's pages, so it delivers the stored table. */
  lemma FinishedHoldsTable(server: Server, artifact: string, table: seq<Row>, fits: Page -> bool, text: nat -> string,
                           seen: seq<Page>, rows: seq<Row>)
    requires AnswersInTurn(server, artifact, table, fits, text) && Delivers(server, artifact, seen, rows)
    ensures rows == table
  {
    var last := |seen| - 1;
    AnsweredPages(server, artifact, table, fits, text, seen, last);
    SliceSize(table, last);
    forall k | 0 <= k < |seen| ensures seen[k] == PageAt(artifact, table, text, k) {
      AnsweredPages(server, artifact, table, fits, text, seen, k);
    }
    assert seen == Pages(artifact, table, text);
    PagesHoldTable(artifact, table, text, seen, |seen|);
    assert seen[..|seen|] == seen;
  }

  /** End to end: from the repository's own route, the reader recovers exactly the stored table and its
      sorted wallets if the route refuses none of its pages for their size and the table passes the reader's
      checks, and fails otherwise. */
  method LoadPublished(read: Cursor.Reader, artifact: string, table: seq<Row>, fits: Page -> bool)
    returns (out: Option<Loaded>)
    requires Digest(artifact) && Cursor.ReadsBack(read) && Numbered(table) && |table| <= MAX_PAIRS
    ensures out.Some? <==> AllFit(artifact, table, PairCursor(artifact), fits) && ValidTable(PAIR_RULES, table)
    ensures out.Some? ==> out.value == Loaded(table, Ordering.Sort(Participants(table), PrintsBefore))
  {
    ghost var text := PairCursor(artifact);
    ghost var server := Serve(read, artifact, table, fits);
    if AllFit(artifact, table, text, fits) {
      RouteDelivers(read, artifact, table, fits, text);
    }
    CountOfPrint(|table|);
    ghost var seen;
    out, seen := Load(PAIR_RULES, artifact, Print(|table|), Serve(read, artifact, table, fits),
                      Pages(artifact, table, text), table);
    if out.Some? {
      RouteInTurn(read, artifact, table, fits, text);
      FinishedFits(server, artifact, table, fits, text, seen, out.value.rows);
      FinishedHoldsTable(server, artifact, table, fits, text, seen, out.value.rows);
    }
  }

  lemma PrintedNumbered(fs: seq<Committed.Fact>)
    ensures Numbered(Committed.Printed(fs))
  {
  }

  lemma SortedWallets(fs: seq<Committed.Fact>, wallets: seq<Signer>)
    requires wallets == Ordering.Sort(Participants(Committed.Printed(fs)), PrintsBefore)
    ensures forall w :: w in wallets <==> w.Plain? && w.form in Committed.Addresses(fs)
    ensures forall i, j :: 0 <= i < j < |wallets| ==> Ordering.TextLess(wallets[i].form, wallets[j].form)
  {
    var ws := Participants(Committed.Printed(fs));
    Committed.PrintedParticipants(fs);
    Ordering.SameItems(ws, wallets);
    Ordering.DistinctPermutes(ws, wallets);
    PrintsCompare();
    Ordering.SortSorts(ws, PrintsBefore);
    forall i, j | 0 <= i < j < |wallets| ensures Ordering.TextLess(wallets[i].form, wallets[j].form) {
      assert wallets[i] in wallets && wallets[j] in wallets;
      assert !PrintsBefore(wallets[j], wallets[i]);
      Ordering.TextTotal(wallets[i].form, wallets[j].form);
    }
  }

  lemma PrintsCompare()
    ensures Ordering.Comparison(PrintsBefore)
  {
    Ordering.TextCompares();
  }

  /** Whatever facts were committed, the reader gets them back from the route, row by row as they were
      printed, with every address once and in order, if and only if the route refuses no page. */
  method LoadCommitted(read: Cursor.Reader, artifact: string, fs: seq<Committed.Fact>, fits: Page -> bool)
    returns (out: Option<Loaded>)
    requires Digest(artifact) && Cursor.ReadsBack(read) && Committed.Committable(fs) && |fs| <= MAX_PAIRS
    ensures out.Some? <==> AllFit(artifact, Committed.Printed(fs), PairCursor(artifact), fits)
    ensures out.Some? ==> out.value.rows == Committed.Printed(fs)
    ensures out.Some? ==> forall w :: w in out.value.wallets <==> w.Plain? && w.form in Committed.Addresses(fs)
    ensures out.Some? ==> forall i, j :: 0 <= i < j < |out.value.wallets| ==>
                            Ordering.TextLess(out.value.wallets[i].form, out.value.wallets[j].form)
  {
    Committed.CommittedAccepted(fs);
    PrintedNumbered(fs);
    out := LoadPublished(read, artifact, Committed.Printed(fs), fits);
    if out.Some? {
      SortedWallets(fs, out.value.wallets);
    }
  }

  lemma CountOfPrint(n: nat)
    requires n <= MAX_PAIRS
    ensures Count(Print(n)) == Some(n)
  {
    PrintCanonical(n);
    assert Power(16) > MAX_PAIRS by {
      assert Power(6) == 1000000;
      PowerGrows(6, 16);
    }
    PrintLength(n, 16);
  }
}
