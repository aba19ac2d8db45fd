/** The committed pair table told by its facts: two addresses and three counts a row, printed as text. */
module Committed {
  import opened Model
  import opened Results
  import opened Ordering
  import opened Decimal
  import opened PairTables
  import L = Loader

  /** Who bought in the same launches, and in how many of them each came first or both at once. */
  datatype Fact = Fact(a: string, b: string, aFirst: nat, bFirst: nat, together: nat) {
    function Total(): nat { aFirst + bFirst + together }
  }

  predicate Alphanumeric(c: char) { '0' <= c <= '9' || 'A' <= c <= 'Z' || 'a' <= c <= 'z' }

  /** Digits and letters, except the four that are easily confused. */
  predicate IsAddress(s: string) {
    32 <= |s| <= 44 && forall i :: 0 <= i < |s| ==> Alphanumeric(s[i]) && s[i] !in "0OIl"
  }

  predicate Sound(f: Fact) {
    IsAddress(f.a) && IsAddress(f.b) && TextLess(f.a, f.b) && 0 < f.Total() <= 9007199254740991
  }

  predicate FactBefore(f: Fact, h: Fact) {
    TextLess(f.a, h.a) || (f.a == h.a && TextLess(f.b, h.b))
  }

  function Addresses(fs: seq<Fact>): set<string> {
    (set f | f in fs :: f.a) + (set f | f in fs :: f.b)
  }

  /** Sound facts, pairs strictly ascending, and at most 5,000 addresses. */
  ghost predicate Committable(fs: seq<Fact>) {
    && (forall i :: 0 <= i < |fs| ==> Sound(fs[i]))
    && (forall i, j :: 0 <= i < j < |fs| ==> FactBefore(fs[i], fs[j]))
    && |Addresses(fs)| <= 5000
  }

  function RowOf(i: nat, f: Fact): Row {
    Row(Print(i), Field(f.a, true), Field(f.b, true), Print(f.Total()), Print(f.aFirst), Print(f.bFirst),
        Print(f.together))
  }

  function Printed(fs: seq<Fact>): seq<Row> {
    seq(|fs|, i requires 0 <= i < |fs| => RowOf(i, fs[i]))
  }

  // ----- one row -----

  lemma AddressIs(s: string)
    ensures L.Address(s) <==> IsAddress(s)
  {
    forall i | 0 <= i < |s| ensures L.Base58(s[i]) <==> Alphanumeric(s[i]) && s[i] !in "0OIl" {
    }
  }

  /** A count is read exactly from the canonical text of a safe integer. */
  lemma CountIs(s: string, n: nat)
    ensures L.Count(s) == Some(n) <==> s == Print(n) && n <= 9007199254740991
  {
    PrintCanonical(n);
    if n <= L.MAX_SAFE {
      PrintedCount(n);
    }
    if L.Count(s) == Some(n) {
      ValuePrints(s);
    }
  }

  /** The row with its two signers taken as text. */
  function Texts(row: Row): Row {
    row.(fieldA := Field(row.fieldA.form, true), fieldB := Field(row.fieldB.form, true))
  }

  lemma SoundAccepted(i: nat, f: Fact, row: Row)
    requires Sound(f) && Texts(row) == RowOf(i, f)
    ensures L.RowOk(row, i)
  {
    AddressIs(f.a);
    AddressIs(f.b);
    CountIs(row.sharedMints, f.Total());
    CountIs(row.aFirst, f.aFirst);
    CountIs(row.bFirst, f.bFirst);
    CountIs(row.sameTransaction, f.together);
  }

  lemma AcceptedSound(i: nat, row: Row) returns (f: Fact)
    requires L.RowOk(row, i)
    ensures Sound(f) && Texts(row) == RowOf(i, f)
  {
    AddressIs(row.fieldA.form);
    AddressIs(row.fieldB.form);
    var x, y, z := L.Count(row.aFirst).value, L.Count(row.bFirst).value, L.Count(row.sameTransaction).value;
    f := Fact(row.fieldA.form, row.fieldB.form, x, y, z);
    CountIs(row.sharedMints, x + y + z);
    CountIs(row.aFirst, x);
    CountIs(row.bFirst, y);
    CountIs(row.sameTransaction, z);
  }

  ghost predicate Tells(row: Row, i: nat, f: Fact) {
    Sound(f) && Texts(row) == RowOf(i, f)
  }

  /** The checks on a single row pass exactly when it prints its place and some sound fact; in particular its
      total is the sum of its three counts. */
  lemma RowTellsFact(row: Row, i: nat)
    ensures L.RowOk(row, i) <==> exists f :: Tells(row, i, f)
  {
    if L.RowOk(row, i) {
      var f := AcceptedSound(i, row);
      assert Tells(row, i, f);
    }
    if exists f :: Tells(row, i, f) {
      var f :| Tells(row, i, f);
      SoundAccepted(i, f, row);
    }
  }

  // ----- the wallets of a table -----

  lemma {:induction false} ParticipantOf(rows: seq<Row>, w: Signer) returns (i: nat)
    requires w in L.Participants(rows)
    ensures i < |rows| && (w == rows[i].SignerA() || w == rows[i].SignerB())
  {
    var init, last := rows[..|rows| - 1], rows[|rows| - 1];
    if w == last.SignerA() || w == last.SignerB() {
      i := |rows| - 1;
    } else {
      assert w in Including(L.Participants(init), last.SignerA());
      i := ParticipantOf(init, w);
      assert rows[i] == init[i];
    }
  }

  lemma PrintedParticipants(fs: seq<Fact>)
    ensures Distinct(L.Participants(Printed(fs)))
    ensures forall w :: w in L.Participants(Printed(fs)) <==> w.Plain? && w.form in Addresses(fs)
  {
    var rows := Printed(fs);
    L.ParticipantsExact(rows);
    forall w ensures w in L.Participants(rows) <==> w.Plain? && w.form in Addresses(fs) {
      if w in L.Participants(rows) {
        var i := ParticipantOf(rows, w);
        assert fs[i] in fs;
      }
      if w.Plain? && w.form in Addresses(fs) {
        var f :| f in fs && (f.a == w.form || f.b == w.form);
        var i :| 0 <= i < |fs| && fs[i] == f;
        assert w == rows[i].SignerA() || w == rows[i].SignerB();
      }
    }
  }

  function Plains(forms: set<string>): set<Signer> {
    set s | s in forms :: Plain(s)
  }

  lemma {:induction false} PlainsSize(forms: set<string>)
    ensures |Plains(forms)| == |forms|
  {
    if forms != {} {
      var s :| s in forms;
      PlainsSize(forms - {s});
      assert Plains(forms) == Plains(forms - {s}) + {Plain(s)};
    }
  }

  /** The wallets of a printed table are its addresses, each once. */
  lemma AddressCount(fs: seq<Fact>)
    ensures |L.Participants(Printed(fs))| == |Addresses(fs)|
  {
    var ws := L.Participants(Printed(fs));
    PrintedParticipants(fs);
    DistinctSize(ws);
    assert (set w | w in ws) == Plains(Addresses(fs)) by {
      forall w ensures w in ws <==> w in Plains(Addresses(fs)) {
        if w.Plain? && w.form in Addresses(fs) {
          assert Plain(w.form) in Plains(Addresses(fs));
        }
      }
    }
    PlainsSize(Addresses(fs));
  }

  // ----- whole tables -----

  /** Every committable list of facts, printed, is a table that the reader's checks accept. */
  lemma CommittedAccepted(fs: seq<Fact>)
    requires Committable(fs)
    ensures PairTable(Printed(fs)) && L.ValidTable(L.PAIR_RULES, Printed(fs))
  {
    var rows := Printed(fs);
    forall i | 0 <= i < |rows| ensures L.RowOk(rows[i], i) && rows[i].TextOnly() {
      SoundAccepted(i, fs[i], rows[i]);
    }
    forall i, j | 0 <= i < j < |rows| ensures PairBefore(rows[i], rows[j]) {
      assert FactBefore(fs[i], fs[j]);
    }
    AddressCount(fs);
    PairTableAccepted(rows);
  }

  /** A committed pair table is exactly a printed list of facts that can be committed. */
  lemma CommittedIsPairTable(rows: seq<Row>)
    ensures PairTable(rows) <==> exists fs :: Committable(fs) && rows == Printed(fs)
  {
    if PairTable(rows) {
      var fs := FactsOf(rows);
      assert Committable(fs) && rows == Printed(fs);
    }
    if exists fs :: Committable(fs) && rows == Printed(fs) {
      var fs :| Committable(fs) && rows == Printed(fs);
      CommittedAccepted(fs);
    }
  }

  lemma {:induction false} RowFacts(rows: seq<Row>, k: nat) returns (fs: seq<Fact>)
    requires k <= |rows| && forall i :: 0 <= i < |rows| ==> L.RowOk(rows[i], i) && rows[i].TextOnly()
    ensures |fs| == k && forall i :: 0 <= i < k ==> Sound(fs[i]) && rows[i] == RowOf(i, fs[i])
  {
    fs := [];
    if k > 0 {
      var init := RowFacts(rows, k - 1);
      var f := AcceptedSound(k - 1, rows[k - 1]);
      fs := init + [f];
    }
  }

  lemma FactsOf(rows: seq<Row>) returns (fs: seq<Fact>)
    requires PairTable(rows)
    ensures Committable(fs) && rows == Printed(fs)
  {
    fs := RowFacts(rows, |rows|);
    assert rows == Printed(fs);
    forall i, j | 0 <= i < j < |fs| ensures FactBefore(fs[i], fs[j]) {
      assert PairBefore(rows[i], rows[j]);
    }
    AddressCount(fs);
  }
}
