/** Documents that carry their integers as decimal text, decoded by the names of their fields. */
module Transcoder {
  import opened Results
  import opened Decimal

  const MAX_TEXT: nat := 80

  /** `Other` stands for leaves of any other type. */
  datatype Doc =
    | Null
    | Bool(flag: bool)
    | Int(number: int)
    | Str(text: string)
    | Other(tag: nat)
    | List(items: seq<Doc>)
    | Obj(fields: seq<Field>)
  datatype Field = Field(name: string, value: Doc)

  function Signed(n: int): string {
    if n < 0 then "-" + Print(-n) else Print(n)
  }

  predicate EndsWith(s: string, suffix: string) {
    |suffix| <= |s| && s[|s| - |suffix|..] == suffix
  }

  predicate Numeric(key: string) {
    || EndsWith(key, "_atomic") || EndsWith(key, "_count") || EndsWith(key, "_bps")
    || EndsWith(key, "_seconds") || EndsWith(key, "_transactions") || EndsWith(key, "_ns")
    || key == "attempt" || key == "maximum_sell_attempts" || key == "block_ordinal"
    || key == "transaction_index" || key == "event_index"
  }

  /** The numeric names: five whole ones, and every name with one of six endings. */
  lemma NumericNames(key: string)
    ensures Numeric(key) <==>
            || key in {"attempt", "maximum_sell_attempts", "block_ordinal", "transaction_index", "event_index"}
            || exists stem: string, ending: string ::
                 && ending in {"_atomic", "_count", "_bps", "_seconds", "_transactions", "_ns"}
                 && key == stem + ending
  {
    var endings := {"_atomic", "_count", "_bps", "_seconds", "_transactions", "_ns"};
    forall ending | ending in endings ensures EndsWith(key, ending) <==> exists stem: string :: key == stem + ending {
      EndingSplits(key, ending);
    }
  }

  lemma EndingSplits(key: string, ending: string)
    ensures EndsWith(key, ending) <==> exists stem: string :: key == stem + ending
  {
    if EndsWith(key, ending) {
      assert key == key[..|key| - |ending|] + ending;
    }
    if exists stem: string :: key == stem + ending {
      var stem: string :| key == stem + ending;
      assert key[|stem|..] == ending;
    }
  }

  lemma DigitsAre(s: string, n: nat)
    ensures s == Print(n) <==> Canonical(s) && Value(s) == n
  {
    PrintCanonical(n);
    if Canonical(s) {
      ValuePrints(s);
    }
  }

  /** The text of an integer: canonical digits of its amount, after a minus sign if it is negative. */
  lemma SignedIs(s: string, n: int)
    ensures n >= 0 ==> (s == Signed(n) <==> Canonical(s) && Value(s) == n)
    ensures n < 0 ==> (s == Signed(n) <==> s != [] && s[0] == '-' && Canonical(s[1..]) && Value(s[1..]) == -n)
  {
    if n >= 0 {
      DigitsAre(s, n);
    } else if s != [] {
      DigitsAre(s[1..], -n);
      assert s == [s[0]] + s[1..];
      assert Signed(n)[1..] == Print(-n);
    }
  }

  // ----- encoding -----

  function Encode(d: Doc): Doc {
    match d
    case Int(n) => Str(Signed(n))
    case List(items) => List(EncodeItems(items))
    case Obj(fields) => Obj(EncodeFields(fields))
    case _ => d
  }

  function EncodeItems(items: seq<Doc>): seq<Doc> {
    if items == [] then [] else [Encode(items[0])] + EncodeItems(items[1..])
  }

  function EncodeFields(fields: seq<Field>): seq<Field> {
    if fields == [] then []
    else [Field(fields[0].name, Encode(fields[0].value))] + EncodeFields(fields[1..])
  }

  // ----- decoding -----

  /** The language's own reading of integers, which takes signs, spaces and underscores as well. */
  type Parser = string -> Option<int>

  ghost predicate ReadsBack(parse: Parser) {
    forall n: int {:trigger Signed(n)} :: |Signed(n)| <= MAX_TEXT ==> parse(Signed(n)) == Some(n)
  }

  function DecodeLeaf(parse: Parser, v: Doc, key: string): Result<Doc, ()> {
    if v.Null? || !Numeric(key) then Ok(v)
    else if !v.Str? || |v.text| > MAX_TEXT then Err(())
    else
      var n := parse(v.text);
      if n.None? || Signed(n.value) != v.text then Err(()) else Ok(Int(n.value))
  }

  function Decode(parse: Parser, v: Doc, key: string): Result<Doc, ()>
    decreases v
  {
    match v
    case Obj(fields) =>
      var decoded := DecodeFields(parse, fields);
      if decoded.Ok? then Ok(Obj(decoded.value)) else Err(())
    case List(items) =>
      var decoded := DecodeItems(parse, items);
      if decoded.Ok? then Ok(List(decoded.value)) else Err(())
    case _ => DecodeLeaf(parse, v, key)
  }

  function DecodeItems(parse: Parser, items: seq<Doc>): Result<seq<Doc>, ()>
    decreases items
  {
    if items == [] then Ok([])
    else
      var first := Decode(parse, items[0], "");
      if first.Err? then Err(())
      else
        var rest := DecodeItems(parse, items[1..]);
        if rest.Err? then Err(()) else Ok([first.value] + rest.value)
  }

  function DecodeFields(parse: Parser, fields: seq<Field>): Result<seq<Field>, ()>
    decreases fields
  {
    if fields == [] then Ok([])
    else
      var first := Decode(parse, fields[0].value, fields[0].name);
      if first.Err? then Err(())
      else
        var rest := DecodeFields(parse, fields[1..]);
        if rest.Err? then Err(()) else Ok([Field(fields[0].name, first.value)] + rest.value)
  }

  // ----- what decoding means -----

  /** `t` stands for `d` under `key`: canonical text for an integer under a numeric name, and nothing
      changed anywhere else. Items of a list have no name. */
  ghost predicate StandsFor(t: Doc, d: Doc, key: string)
    decreases t
  {
    match t
    case Obj(fields) =>
      && d.Obj? && |d.fields| == |fields|
      && forall i :: 0 <= i < |fields| ==>
           d.fields[i].name == fields[i].name && StandsFor(fields[i].value, d.fields[i].value, fields[i].name)
    case List(items) =>
      && d.List? && |d.items| == |items|
      && forall i :: 0 <= i < |items| ==> StandsFor(items[i], d.items[i], "")
    case _ => LeafStandsFor(t, d, key)
  }

  ghost predicate LeafStandsFor(t: Doc, d: Doc, key: string) {
    if Numeric(key) && !t.Null? then d.Int? && |Signed(d.number)| <= MAX_TEXT && t == Str(Signed(d.number)) else d == t
  }

  lemma LeafDecodes(parse: Parser, t: Doc, d: Doc, key: string)
    requires ReadsBack(parse)
    ensures DecodeLeaf(parse, t, key) == Ok(d) <==> LeafStandsFor(t, d, key)
  {
  }

  /** Whatever else the language's parser takes, decoding accepts a document with a value exactly when
      the one stands for the other. */
  lemma {:induction false} DecodesWhatStands(parse: Parser, t: Doc, d: Doc, key: string)
    requires ReadsBack(parse)
    ensures Decode(parse, t, key) == Ok(d) <==> StandsFor(t, d, key)
    decreases t
  {
    if t.Obj? {
      if d.Obj? {
        FieldsDecode(parse, t.fields, d.fields);
      }
    } else if t.List? {
      if d.List? {
        ItemsDecode(parse, t.items, d.items);
      }
    } else {
      LeafDecodes(parse, t, d, key);
    }
  }

  lemma {:induction false} ItemsDecode(parse: Parser, t: seq<Doc>, d: seq<Doc>)
    requires ReadsBack(parse)
    ensures DecodeItems(parse, t) == Ok(d) <==>
            |t| == |d| && forall i :: 0 <= i < |t| ==> StandsFor(t[i], d[i], "")
    decreases t
  {
    if t != [] && d != [] {
      DecodesWhatStands(parse, t[0], d[0], "");
      ItemsDecode(parse, t[1..], d[1..]);
      assert d == [d[0]] + d[1..];
    }
  }

  lemma {:induction false} FieldsDecode(parse: Parser, t: seq<Field>, d: seq<Field>)
    requires ReadsBack(parse)
    ensures DecodeFields(parse, t) == Ok(d) <==>
            && |t| == |d|
            && forall i :: 0 <= i < |t| ==> d[i].name == t[i].name && StandsFor(t[i].value, d[i].value, t[i].name)
    decreases t
  {
    if t != [] && d != [] {
      DecodesWhatStands(parse, t[0].value, d[0].value, t[0].name);
      FieldsDecode(parse, t[1..], d[1..]);
      assert d == [d[0]] + d[1..];
    }
  }

  // ----- what encoding keeps -----

  lemma {:induction false} EncodedItems(items: seq<Doc>)
    ensures |EncodeItems(items)| == |items|
    ensures forall i :: 0 <= i < |items| ==> EncodeItems(items)[i] == Encode(items[i])
  {
    if items != [] {
      EncodedItems(items[1..]);
    }
  }

  lemma {:induction false} EncodedFields(fields: seq<Field>)
    ensures |EncodeFields(fields)| == |fields|
    ensures forall i :: 0 <= i < |fields| ==> EncodeFields(fields)[i] == Field(fields[i].name, Encode(fields[i].value))
  {
    if fields != [] {
      EncodedFields(fields[1..]);
    }
  }

  /** Integers of bounded length only under numeric names, and nothing but integers and nulls there;
      items of a list have no name. */
  ghost predicate Clean(d: Doc, key: string)
    decreases d
  {
    match d
    case Obj(fields) => forall i :: 0 <= i < |fields| ==> Clean(fields[i].value, fields[i].name)
    case List(items) => forall i :: 0 <= i < |items| ==> Clean(items[i], "")
    case Null => true
    case Int(n) => Numeric(key) && |Signed(n)| <= MAX_TEXT
    case _ => !Numeric(key)
  }

  lemma {:induction false} EncodingStands(d: Doc, key: string)
    ensures StandsFor(Encode(d), d, key) <==> Clean(d, key)
    decreases d
  {
    if d.Obj? {
      EncodedFields(d.fields);
      forall i | 0 <= i < |d.fields|
        ensures StandsFor(EncodeFields(d.fields)[i].value, d.fields[i].value, d.fields[i].name)
                <==> Clean(d.fields[i].value, d.fields[i].name)
      {
        EncodingStands(d.fields[i].value, d.fields[i].name);
      }
    } else if d.List? {
      EncodedItems(d.items);
      forall i | 0 <= i < |d.items|
        ensures StandsFor(EncodeItems(d.items)[i], d.items[i], "") <==> Clean(d.items[i], "")
      {
        EncodingStands(d.items[i], "");
      }
    }
  }

  /** Transport gives back exactly the clean documents. */
  lemma RoundTrip(parse: Parser, d: Doc, key: string)
    requires ReadsBack(parse)
    ensures Decode(parse, Encode(d), key) == Ok(d) <==> Clean(d, key)
  {
    DecodesWhatStands(parse, Encode(d), d, key);
    EncodingStands(d, key);
  }

  lemma {:induction false} StandingEncodes(t: Doc, d: Doc, key: string)
    requires StandsFor(t, d, key)
    ensures Encode(d) == Encode(t)
    decreases t
  {
    if t.Obj? {
      EncodedFields(t.fields);
      EncodedFields(d.fields);
      forall i | 0 <= i < |t.fields| ensures EncodeFields(t.fields)[i] == EncodeFields(d.fields)[i] {
        StandingEncodes(t.fields[i].value, d.fields[i].value, t.fields[i].name);
      }
      assert EncodeFields(t.fields) == EncodeFields(d.fields);
    } else if t.List? {
      EncodedItems(t.items);
      EncodedItems(d.items);
      forall i | 0 <= i < |t.items| ensures EncodeItems(t.items)[i] == EncodeItems(d.items)[i] {
        StandingEncodes(t.items[i], d.items[i], "");
      }
      assert EncodeItems(t.items) == EncodeItems(d.items);
    }
  }

  ghost predicate IntFree(t: Doc)
    decreases t
  {
    match t
    case Obj(fields) => forall i :: 0 <= i < |fields| ==> IntFree(fields[i].value)
    case List(items) => forall i :: 0 <= i < |items| ==> IntFree(items[i])
    case Int(_) => false
    case _ => true
  }

  /** Encoded documents hold no integers, and encoding changes nothing else. */
  lemma {:induction false} EncodeFixes(t: Doc)
    ensures IntFree(Encode(t)) && (IntFree(t) <==> Encode(t) == t)
    decreases t
  {
    if t.Obj? {
      EncodedFields(t.fields);
      forall i | 0 <= i < |t.fields|
        ensures IntFree(EncodeFields(t.fields)[i].value)
        ensures IntFree(t.fields[i].value) <==> EncodeFields(t.fields)[i] == t.fields[i]
      {
        EncodeFixes(t.fields[i].value);
      }
      assert EncodeFields(t.fields) == t.fields
             <==> forall i :: 0 <= i < |t.fields| ==> EncodeFields(t.fields)[i] == t.fields[i];
    } else if t.List? {
      EncodedItems(t.items);
      forall i | 0 <= i < |t.items|
        ensures IntFree(EncodeItems(t.items)[i]) && (IntFree(t.items[i]) <==> EncodeItems(t.items)[i] == t.items[i])
      {
        EncodeFixes(t.items[i]);
      }
      assert EncodeItems(t.items) == t.items
             <==> forall i :: 0 <= i < |t.items| ==> EncodeItems(t.items)[i] == t.items[i];
    }
  }

  /** Whatever was accepted encodes like the text it came from, and an accepted text without bare
      integers is the only one for its value. */
  lemma AcceptedReturns(parse: Parser, t: Doc, d: Doc, key: string)
    requires ReadsBack(parse) && Decode(parse, t, key) == Ok(d)
    ensures Encode(d) == Encode(t)
    ensures IntFree(t) <==> Encode(d) == t
  {
    DecodesWhatStands(parse, t, d, key);
    StandingEncodes(t, d, key);
    EncodeFixes(t);
  }

  /** An integer in a list, and digits under a name that is not numeric, come back as text. */
  lemma NamelessIntegersStayText(parse: Parser, n: int, key: string)
    requires ReadsBack(parse)
    ensures Decode(parse, Encode(List([Int(n)])), key) == Ok(List([Str(Signed(n))]))
    ensures !Numeric(key) ==> Decode(parse, Str(Signed(n)), key) == Ok(Str(Signed(n)))
  {
    var t := List([Str(Signed(n))]);
    EncodedItems([Int(n)]);
    assert Encode(List([Int(n)])) == t;
    assert !Numeric("");
    DecodesWhatStands(parse, t, t, key);
  }
}
