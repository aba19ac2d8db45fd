/** The in-memory model of a loaded pair table. */
module Model {
  import opened PairGraph
  import opened Ordering

  /** A field that ought to hold text: its printed form, and whether it is text. A list around one
      text, for instance, prints like that text. */
  datatype Field = Field(form: string, text: bool)

  /** A signer as the language tells values apart: texts by their characters, any other value by the
      field it was read from. */
  datatype Signer = Plain(form: string) | Boxed(form: string, row: string, second: bool)

  /** One row of the pair table. Every other field is text wherever the row can be accepted. */
  datatype Row = Row(rowId: string, fieldA: Field, fieldB: Field, sharedMints: string,
                     aFirst: string, bFirst: string, sameTransaction: string) {

    function SignerA(): Signer {
      if fieldA.text then Plain(fieldA.form) else Boxed(fieldA.form, rowId, false)
    }

    function SignerB(): Signer {
      if fieldB.text then Plain(fieldB.form) else Boxed(fieldB.form, rowId, true)
    }

    predicate TextOnly() { fieldA.text && fieldB.text }
  }

  /** Sorting compares printed forms. */
  predicate PrintsBefore(x: Signer, y: Signer) { TextLess(x.form, y.form) }

  /** Sorted wallets, the rows in table order, and what the construction loop derives from them. */
  datatype Model = Model(rows: seq<Row>, wallets: seq<Signer>, graph: Graph, strength: seq<nat>,
                         adjacent: seq<seq<nat>>)
  {

    ghost predicate Valid() {
      && graph.Valid() && graph.order == |wallets| && graph.Size() == |rows|
      && |strength| == |adjacent| == |wallets|
      && (forall v :: 0 <= v < |wallets| ==> strength[v] == Strength(graph, v, |rows|))
      && (forall v :: 0 <= v < |wallets| ==> adjacent[v] == Incident(graph, v, |rows|))
    }
  }
}
