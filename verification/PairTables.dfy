/** What the reader's checks of neighbouring rows mean for a whole table, and where they fall short. */
module PairTables {
  import opened Model
  import opened Results
  import opened Ordering
  import opened Decimal
  import opened Display
  import L = Loader

  /** The printed pair of `x` comes strictly before that of `y`. */
  predicate PairBefore(x: Row, y: Row) {
    TextLess(x.fieldA.form, y.fieldA.form) || (x.fieldA.form == y.fieldA.form && TextLess(x.fieldB.form, y.fieldB.form))
  }

  /** Printed pairs ascend strictly over the whole table. */
  ghost predicate PairsAscend(rows: seq<Row>) {
    forall i, j {:trigger PairBefore(rows[i], rows[j])} :: 0 <= i < j < |rows| ==> PairBefore(rows[i], rows[j])
  }

  /** The rows print the same first signer but hold different values there, so the second signers are
      never compared, and they do not ascend. */
  predicate Unnoticed(x: Row, y: Row) {
    x.fieldA.form == y.fieldA.form && x.SignerA() != y.SignerA() && !TextLess(x.fieldB.form, y.fieldB.form)
  }

  predicate UnnoticedAt(rows: seq<Row>, i: int)
    requires 0 < i < |rows|
  {
    Unnoticed(rows[i - 1], rows[i])
  }

  ghost predicate NothingUnnoticed(rows: seq<Row>) {
    forall i :: 0 < i < |rows| ==> !UnnoticedAt(rows, i)
  }

  ghost predicate TextTable(rows: seq<Row>) {
    forall i :: 0 <= i < |rows| ==> rows[i].TextOnly()
  }

  lemma PairBeforeTransitive(x: Row, y: Row, z: Row)
    requires PairBefore(x, y) && PairBefore(y, z)
    ensures PairBefore(x, z)
  {
    if TextLess(x.fieldA.form, y.fieldA.form) && TextLess(y.fieldA.form, z.fieldA.form) {
      TextTransitive(x.fieldA.form, y.fieldA.form, z.fieldA.form);
    } else if x.fieldA.form == y.fieldA.form == z.fieldA.form {
      TextTransitive(x.fieldB.form, y.fieldB.form, z.fieldB.form);
    }
  }

  /** The code's comparison of neighbours is the strict printed order, except where it goes unnoticed. */
  lemma FollowsExactly(x: Row, y: Row)
    requires L.Follows(x, y)
    ensures PairBefore(x, y) <==> !Unnoticed(x, y)
  {
    TextTotal(x.fieldA.form, y.fieldA.form);
  }

  lemma {:induction false} AscendingNeighbours(rows: seq<Row>, i: nat, j: nat)
    requires L.ValidTable(L.PAIR_RULES, rows) && NothingUnnoticed(rows) && i < j < |rows|
    ensures PairBefore(rows[i], rows[j])
    decreases j
  {
    assert L.InPlace(L.PAIR_RULES, rows, j) && !UnnoticedAt(rows, j);
    FollowsExactly(rows[j - 1], rows[j]);
    if i < j - 1 {
      AscendingNeighbours(rows, i, j - 1);
      PairBeforeTransitive(rows[i], rows[j - 1], rows[j]);
    }
  }

  /** An accepted table ascends strictly exactly when no two neighbours go unnoticed. */
  lemma AcceptedAscends(rows: seq<Row>)
    requires L.ValidTable(L.PAIR_RULES, rows)
    ensures PairsAscend(rows) <==> NothingUnnoticed(rows)
  {
    if NothingUnnoticed(rows) {
      forall i, j | 0 <= i < j < |rows| ensures PairBefore(rows[i], rows[j]) {
        AscendingNeighbours(rows, i, j);
      }
    }
    if PairsAscend(rows) {
      forall i | 0 < i < |rows| ensures !UnnoticedAt(rows, i) {
        assert L.InPlace(L.PAIR_RULES, rows, i) && PairBefore(rows[i - 1], rows[i]);
        FollowsExactly(rows[i - 1], rows[i]);
      }
    }
  }

  /** A committed pair table: text throughout, rows numbered, pairs strictly ascending, and at most 5,000
      different addresses. */
  ghost predicate PairTable(rows: seq<Row>) {
    && TextTable(rows) && PairsAscend(rows) && |L.Participants(rows)| <= L.MAX_WALLETS
    && forall i :: 0 <= i < |rows| ==> L.RowOk(rows[i], i)
  }

  /** What the reader accepts is a committed pair table exactly when every signer in it is text. */
  lemma AcceptedIsPairTable(rows: seq<Row>)
    requires L.ValidTable(L.PAIR_RULES, rows)
    ensures PairTable(rows) <==> TextTable(rows)
  {
    forall i | 0 <= i < |rows| ensures L.RowOk(rows[i], i) {
      assert L.InPlace(L.PAIR_RULES, rows, i);
    }
    if TextTable(rows) {
      forall i | 0 < i < |rows| ensures !UnnoticedAt(rows, i) {
        assert rows[i - 1].TextOnly() && rows[i].TextOnly();
      }
      AcceptedAscends(rows);
    }
  }

  /** Every committed pair table is accepted. */
  lemma PairTableAccepted(rows: seq<Row>)
    requires PairTable(rows)
    ensures L.ValidTable(L.PAIR_RULES, rows)
  {
    forall i | 0 <= i < |rows| ensures L.InPlace(L.PAIR_RULES, rows, i) {
      assert L.RowOk(rows[i], i);
      if i > 0 {
        assert PairBefore(rows[i - 1], rows[i]);
        TextTotal(rows[i - 1].fieldA.form, rows[i].fieldA.form);
      }
    }
  }

  /** Row identities never repeat in an accepted table, and no row pairs a wallet with one that prints like it. */
  lemma AcceptedOwnRows(rows: seq<Row>)
    requires L.ValidTable(L.PAIR_RULES, rows)
    ensures OwnRows(rows)
  {
    forall i | 0 <= i < |rows| ensures L.RowOk(rows[i], i) && rows[i].fieldA.form != rows[i].fieldB.form {
      assert L.InPlace(L.PAIR_RULES, rows, i);
      TextIrreflexive(rows[i].fieldA.form);
    }
    forall i, j | 0 <= i < j < |rows| ensures rows[i].rowId != rows[j].rowId {
      if rows[i].rowId == rows[j].rowId {
        PrintInjective(i, j);
      }
    }
  }

  lemma NotOnePair(x: Row, y: Row)
    requires TextLess(x.fieldA.form, x.fieldB.form) && TextLess(y.fieldA.form, y.fieldB.form) && PairBefore(x, y)
    ensures !PrintsOnePair(x, y)
  {
    TextIrreflexive(x.fieldA.form);
    TextIrreflexive(x.fieldB.form);
    TextTotal(x.fieldA.form, x.fieldB.form);
  }

  /** No row identity and no unordered pair repeats in an accepted table that ascends. */
  lemma LoadedRowsSimple(rows: seq<Row>)
    requires L.ValidTable(L.PAIR_RULES, rows) && PairsAscend(rows)
    ensures OwnRows(rows) && PairsApart(rows)
  {
    AcceptedOwnRows(rows);
    forall i, j | 0 <= i < j < |rows| ensures !PrintsOnePair(rows[i], rows[j]) {
      assert L.InPlace(L.PAIR_RULES, rows, i) && L.InPlace(L.PAIR_RULES, rows, j);
      assert L.RowOk(rows[i], i) && L.RowOk(rows[j], j) && PairBefore(rows[i], rows[j]);
      NotOnePair(rows[i], rows[j]);
    }
  }

  lemma ApartByForm(wallets: seq<Signer>, x: Signer, y: Signer)
    requires PrintsApart(wallets) && x in wallets && y in wallets && x.form == y.form
    ensures x == y
  {
    var i :| 0 <= i < |wallets| && wallets[i] == x;
    var j :| 0 <= j < |wallets| && wallets[j] == y;
    assert i == j;
  }

  /** Where different wallets print differently, an accepted table ascends strictly. */
  lemma ApartAscends(rows: seq<Row>, wallets: seq<Signer>)
    requires L.ValidTable(L.PAIR_RULES, rows) && PrintsApart(wallets)
    requires forall w :: w in wallets <==> w in L.Participants(rows)
    ensures PairsAscend(rows)
  {
    L.ParticipantsExact(rows);
    forall i | 0 < i < |rows| ensures !UnnoticedAt(rows, i) {
      if rows[i - 1].fieldA.form == rows[i].fieldA.form {
        ApartByForm(wallets, rows[i - 1].SignerA(), rows[i].SignerA());
      }
    }
    AcceptedAscends(rows);
  }

  /** In a table of text, different wallets print differently. */
  lemma TextPrintsApart(rows: seq<Row>, wallets: seq<Signer>)
    requires TextTable(rows) && Distinct(wallets) && forall w :: w in wallets <==> w in L.Participants(rows)
    ensures PrintsApart(wallets)
  {
    forall w | w in wallets ensures w.Plain? {
      PlainParticipants(rows, w);
    }
    forall i, j | 0 <= i < j < |wallets| ensures wallets[i].form != wallets[j].form {
      assert wallets[i] in wallets && wallets[j] in wallets;
    }
  }

  lemma {:induction false} PlainParticipants(rows: seq<Row>, w: Signer)
    requires TextTable(rows) && w in L.Participants(rows)
    ensures w.Plain?
  {
    var init, last := rows[..|rows| - 1], rows[|rows| - 1];
    assert last.TextOnly();
    if w in L.Participants(init) {
      PlainParticipants(init, w);
    }
  }

  /** For a table the reader accepts, what views need follows from its wallets printing differently. */
  lemma LoadedSimple(rows: seq<Row>, wallets: seq<Signer>)
    requires L.ValidTable(L.PAIR_RULES, rows) && forall w :: w in wallets <==> w in L.Participants(rows)
    ensures OwnRows(rows) && (PrintsApart(wallets) ==> PairsApart(rows))
  {
    AcceptedOwnRows(rows);
    if PrintsApart(wallets) {
      ApartAscends(rows, wallets);
      LoadedRowsSimple(rows);
    }
  }

  // ----- what goes unnoticed -----

  /** A page of two rows for one pair, whose first signers are not text. */
  ghost predicate BoxedRows(x: Row, y: Row) {
    && L.RowOk(x, 0) && L.RowOk(y, 1)
    && x.fieldA == y.fieldA && !x.fieldA.text && x.fieldB == y.fieldB && x.fieldB.text
  }

  lemma BoxedParticipants(x: Row, y: Row)
    requires BoxedRows(x, y)
    ensures L.Participants([x, y]) == [x.SignerA(), x.SignerB(), y.SignerA()]
  {
    TextIrreflexive(x.fieldA.form);
    PrintCanonical(0);
    PrintCanonical(1);
    assert [x, y][..1] == [x] && [x][..0] == [];
    assert L.Participants([x]) == [x.SignerA(), x.SignerB()];
  }

  lemma BoxedTable(x: Row, y: Row)
    requires BoxedRows(x, y)
    ensures L.ValidTable(L.PAIR_RULES, [x, y])
    ensures PrintsOnePair(x, y) && !PairsAscend([x, y]) && !PrintsApart(L.Participants([x, y]))
  {
    var rows := [x, y];
    BoxedParticipants(x, y);
    TextIrreflexive(x.fieldA.form);
    TextIrreflexive(x.fieldB.form);
    assert L.InPlace(L.PAIR_RULES, rows, 0) && L.InPlace(L.PAIR_RULES, rows, 1);
    assert !PairBefore(rows[0], rows[1]);
    assert L.Participants(rows)[0].form == L.Participants(rows)[2].form;
  }

  /** A server that sends such a page makes the reader accept a table that repeats a pair. */
  lemma BoxedPairAccepted(server: L.Server, artifact: string, page: L.Page, x: Row, y: Row)
    requires BoxedRows(x, y) && page == L.Page(artifact, "pairs", Some([Some(x), Some(y)]), L.Null)
    requires server(0, None) == Some(page)
    ensures L.Expected(L.PAIR_RULES, server, artifact, [page], [x, y])
    ensures PrintsOnePair(x, y) && !PairTable([x, y]) && !PrintsApart(L.Participants([x, y]))
  {
    BoxedTable(x, y);
    var pages := [page];
    assert L.CursorAt(pages, 0) == None;
    assert L.RowsIn(page) == [x, y] && pages[..0] == [];
  }

  lemma Repeated(c: char, d: char)
    requires L.Base58(c) && L.Base58(d) && c < d
    ensures L.Address(seq(32, _ => c)) && L.Address(seq(32, _ => d)) && TextLess(seq(32, _ => c), seq(32, _ => d))
  {
    var x, y := seq(32, _ => c), seq(32, _ => d);
    assert x[0] == c && y[0] == d;
  }

  lemma SmallCounts()
    ensures Print(0) == "0" && Print(1) == "1" && L.Count("0") == Some(0) && L.Count("1") == Some(1)
  {
    PrintCanonical(0);
    PrintCanonical(1);
  }

  lemma PrintedCount(n: nat)
    requires n <= L.MAX_SAFE
    ensures L.Count(Print(n)) == Some(n)
  {
    PrintCanonical(n);
    assert Power(5) == 100000 && Power(10) == 100000 * Power(5) && Power(15) == 100000 * Power(10);
    assert Power(16) == 10 * Power(15);
    PrintLength(n, 16);
  }

  /** There are such rows: the first signer is a list around the address of 32 ones. */
  lemma BoxedRowsExist() returns (x: Row, y: Row)
    ensures BoxedRows(x, y)
  {
    var a, b := Field(seq(32, _ => '1'), false), Field(seq(32, _ => '2'), true);
    x, y := Row("0", a, b, "1", "1", "0", "0"), Row("1", a, b, "1", "1", "0", "0");
    Repeated('1', '2');
    SmallCounts();
  }
}
