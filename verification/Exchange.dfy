/** A finished exchange told page by page and row by row, with the numbers written out. */
module Exchange {
  import opened Model
  import opened Results
  import L = Loader

  /** Page `i` is about this table, within its size, and every row is well shaped. */
  ghost predicate Framed(artifact: string, page: L.Page) {
    && page.artifact == artifact && page.table == "pairs" && page.rows.Some? && |page.rows.value| <= 200
    && forall j :: 0 <= j < |page.rows.value| ==> page.rows.value[j].Some?
  }

  /** The page is full and its cursor fetched the next one. */
  ghost predicate Followed(server: L.Server, pages: seq<L.Page>, i: nat)
    requires i + 1 < |pages|
  {
    && pages[i].next.Text? && 1 <= |pages[i].next.text| <= 1024
    && pages[i].rows.Some? && |pages[i].rows.value| == 200
    && server(i + 1, Some(pages[i].next.text)) == Some(pages[i + 1])
  }

  /** Row `j` of page `i` is row `200 * i + j` of the table. */
  ghost predicate Holds(pages: seq<L.Page>, table: seq<Row>, i: nat)
    requires i < |pages|
  {
    && pages[i].rows.Some? && 200 * i + |pages[i].rows.value| <= |table|
    && forall j :: 0 <= j < |pages[i].rows.value| ==> pages[i].rows.value[j] == Some(table[200 * i + j])
  }

  ghost predicate Told(server: L.Server, artifact: string, pages: seq<L.Page>, table: seq<Row>) {
    && |pages| > 0 && server(0, None) == Some(pages[0])
    && (forall i :: 0 <= i < |pages| ==> Framed(artifact, pages[i]))
    && (forall i :: 0 <= i < |pages| - 1 ==> Followed(server, pages, i))
    && (forall i, j :: 0 <= i < j < |pages| - 1 ==> pages[i].next != pages[j].next)
    && pages[|pages| - 1].next.Null?
    && (forall i :: 0 <= i < |pages| ==> Holds(pages, table, i))
    && |table| == 200 * (|pages| - 1) + |pages[|pages| - 1].rows.value|
  }

  /** Pages that are all full hold two hundred rows each, in order. */
  lemma {:induction false} RowsOfHolds(pages: seq<L.Page>, i: nat, j: nat)
    requires forall i :: 0 <= i < |pages| ==> L.Shaped(pages[i])
    requires forall i :: 0 <= i < |pages| - 1 ==> pages[i].rows.Some? && |pages[i].rows.value| == 200
    requires i < |pages| && pages[i].rows.Some? && j < |pages[i].rows.value|
    ensures 200 * i + j < |L.RowsOf(pages)| && L.RowsOf(pages)[200 * i + j] == pages[i].rows.value[j].value
  {
    var init := pages[..|pages| - 1];
    RowsOfLength(init);
    if i < |init| {
      RowsOfHolds(init, i, j);
    }
  }

  lemma {:induction false} RowsOfLength(pages: seq<L.Page>)
    requires forall i :: 0 <= i < |pages| ==> L.Shaped(pages[i])
    requires forall i :: 0 <= i < |pages| ==> pages[i].rows.Some? && |pages[i].rows.value| == 200
    ensures |L.RowsOf(pages)| == 200 * |pages|
  {
    if pages != [] {
      RowsOfLength(pages[..|pages| - 1]);
    }
  }

  lemma DeliveredHolds(server: L.Server, artifact: string, pages: seq<L.Page>, table: seq<Row>, i: nat)
    requires L.Delivers(server, artifact, pages, table) && i < |pages|
    ensures Holds(pages, table, i)
  {
    forall k | 0 <= k < |pages| - 1 ensures |pages[k].rows.value| == 200 {
      assert L.Continues(pages, k);
    }
    forall j | 0 <= j < |pages[i].rows.value|
      ensures 200 * i + j < |table| && pages[i].rows.value[j] == Some(table[200 * i + j])
    {
      RowsOfHolds(pages, i, j);
    }
    DeliveredLength(server, artifact, pages, table);
    if pages[i].rows.value == [] {
      assert i == |pages| - 1;
    }
  }

  lemma DeliveredLength(server: L.Server, artifact: string, pages: seq<L.Page>, table: seq<Row>)
    requires L.Delivers(server, artifact, pages, table)
    ensures |table| == 200 * (|pages| - 1) + |pages[|pages| - 1].rows.value|
  {
    var init := pages[..|pages| - 1];
    forall k | 0 <= k < |init| ensures |init[k].rows.value| == 200 {
      assert L.Continues(pages, k);
    }
    RowsOfLength(init);
  }

  lemma DeliveredFollows(server: L.Server, artifact: string, pages: seq<L.Page>, table: seq<Row>, i: nat)
    requires L.Delivers(server, artifact, pages, table) && i + 1 < |pages|
    ensures Followed(server, pages, i)
  {
    assert L.Continues(pages, i);
    assert server(i + 1, L.CursorAt(pages, i + 1)) == Some(pages[i + 1]);
  }

  /** What a delivering exchange is, without the reader's own notions. */
  lemma DeliversIsTold(server: L.Server, artifact: string, pages: seq<L.Page>, table: seq<Row>)
    ensures L.Delivers(server, artifact, pages, table) <==> Told(server, artifact, pages, table)
  {
    if L.Delivers(server, artifact, pages, table) {
      DeliveredIsTold(server, artifact, pages, table);
    }
    if Told(server, artifact, pages, table) {
      ToldDelivers(server, artifact, pages, table);
    }
  }

  lemma DeliveredIsTold(server: L.Server, artifact: string, pages: seq<L.Page>, table: seq<Row>)
    requires L.Delivers(server, artifact, pages, table)
    ensures Told(server, artifact, pages, table)
  {
    assert server(0, L.CursorAt(pages, 0)) == Some(pages[0]);
    forall i | 0 <= i < |pages| ensures Holds(pages, table, i) {
      DeliveredHolds(server, artifact, pages, table, i);
    }
    forall i | 0 <= i < |pages| - 1 ensures Followed(server, pages, i) {
      DeliveredFollows(server, artifact, pages, table, i);
    }
    forall i, j | 0 <= i < j < |pages| - 1 ensures pages[i].next != pages[j].next {
      assert L.Continues(pages, j);
    }
    DeliveredLength(server, artifact, pages, table);
  }

  lemma ToldShaped(server: L.Server, artifact: string, pages: seq<L.Page>, table: seq<Row>)
    requires Told(server, artifact, pages, table)
    ensures forall i :: 0 <= i < |pages| ==> L.Shaped(pages[i]) && |pages[i].rows.value| <= 200
    ensures forall i :: 0 <= i < |pages| - 1 ==> |pages[i].rows.value| == 200
  {
    forall i | 0 <= i < |pages| ensures L.Shaped(pages[i]) && |pages[i].rows.value| <= 200 {
      assert Framed(artifact, pages[i]);
    }
    forall i | 0 <= i < |pages| - 1 ensures |pages[i].rows.value| == 200 {
      assert Followed(server, pages, i);
    }
  }

  lemma Place(e: nat, n: nat, last: nat) returns (i: nat, j: nat)
    requires n > 0 && last <= 200 && e < 200 * (n - 1) + last
    ensures e == 200 * i + j && i < n && j < if i == n - 1 then last else 200
  {
    i, j := e / 200, e % 200;
  }

  lemma ToldLength(pages: seq<L.Page>)
    requires pages != [] && forall i :: 0 <= i < |pages| ==> L.Shaped(pages[i])
    requires forall i :: 0 <= i < |pages| - 1 ==> pages[i].rows.Some? && |pages[i].rows.value| == 200
    ensures |L.RowsOf(pages)| == 200 * (|pages| - 1) + |pages[|pages| - 1].rows.value|
  {
    RowsOfLength(pages[..|pages| - 1]);
  }

  lemma ToldRow(pages: seq<L.Page>, table: seq<Row>, e: nat)
    requires pages != [] && forall i :: 0 <= i < |pages| ==> L.Shaped(pages[i])
    requires forall i :: 0 <= i < |pages| - 1 ==> pages[i].rows.Some? && |pages[i].rows.value| == 200
    requires L.Shaped(pages[|pages| - 1]) && |pages[|pages| - 1].rows.value| <= 200
    requires forall i :: 0 <= i < |pages| ==> Holds(pages, table, i)
    requires e < |L.RowsOf(pages)| && e < |table|
    ensures L.RowsOf(pages)[e] == table[e]
  {
    ToldLength(pages);
    var i, j := Place(e, |pages|, |pages[|pages| - 1].rows.value|);
    RowsOfHolds(pages, i, j);
    assert Holds(pages, table, i);
  }

  lemma ToldRows(server: L.Server, artifact: string, pages: seq<L.Page>, table: seq<Row>)
    requires Told(server, artifact, pages, table)
    ensures (forall i :: 0 <= i < |pages| ==> L.Shaped(pages[i])) && L.RowsOf(pages) == table
  {
    ToldShaped(server, artifact, pages, table);
    ToldLength(pages);
    forall e | 0 <= e < |table| ensures L.RowsOf(pages)[e] == table[e] {
      ToldRow(pages, table, e);
    }
  }

  lemma ToldDelivers(server: L.Server, artifact: string, pages: seq<L.Page>, table: seq<Row>)
    requires Told(server, artifact, pages, table)
    ensures L.Delivers(server, artifact, pages, table)
  {
    ToldRows(server, artifact, pages, table);
    forall i | 0 <= i < |pages| - 1 ensures L.Continues(pages, i) {
      assert Followed(server, pages, i);
    }
    forall i {:trigger L.CursorAt(pages, i)} | 0 <= i < |pages|
      ensures server(i, L.CursorAt(pages, i)) == Some(pages[i])
    {
      if i > 0 {
        assert Followed(server, pages, i - 1);
      }
    }
    forall i | 0 <= i < |pages| ensures pages[i].artifact == artifact && pages[i].table == "pairs" {
      assert Framed(artifact, pages[i]);
    }
    forall i | 0 <= i < |pages| ensures |pages[i].rows.value| <= 200 {
      assert Framed(artifact, pages[i]);
    }
  }
}
