/** Page cursors: a canonical document naming the view and the last ordinal, in URL-safe base64. */
module Cursor {
  import opened Results
  import opened Decimal
  import opened Base64
  import opened Identity

  datatype Table = Observations | TokenModes | DataIssues | Activity | Pairs | Evidence

  const MAX_CURSOR: nat := 1024

  /** The longest document whose cursor is within the limit. */
  const MAX_DOCUMENT: nat := MAX_CURSOR / 4 * 3

  function Name(t: Table): string {
    match t
    case Observations => "observations"
    case TokenModes => "token_modes"
    case DataIssues => "data_issues"
    case Activity => "activity"
    case Pairs => "pairs"
    case Evidence => "evidence"
  }

  function Pair(pair: Option<nat>): string {
    if pair.None? then "null" else Print(pair.value)
  }

  /** Canonical JSON: sorted keys, no spaces. */
  function Document(artifact: string, table: Table, pair: Option<nat>, after: nat): string {
    "{\"after\":" + (Print(after) + "," + ArtifactField(artifact, pair, table))
  }

  function ArtifactField(artifact: string, pair: Option<nat>, table: Table): string {
    "\"artifact\":\"" + (artifact + "\",\"pair\":" + PairField(pair, table))
  }

  function PairField(pair: Option<nat>, table: Table): string {
    Pair(pair) + "," + TableField(table)
  }

  function TableField(table: Table): string {
    "\"schema\":\"research-cursor/v1\",\"table\":\"" + (Name(table) + "\"}")
  }

  predicate Ascii(s: string) {
    forall i :: 0 <= i < |s| ==> s[i] as int < 128
  }

  /** UTF-8 bytes of ASCII text. */
  function Bytes(s: string): seq<Byte>
    requires Ascii(s)
  {
    seq(|s|, i requires 0 <= i < |s| => s[i] as int)
  }

  lemma BytesInjective(s: string, t: string)
    requires Ascii(s) && Ascii(t) && Bytes(s) == Bytes(t)
    ensures s == t
  {
    assert |s| == |Bytes(s)| == |t|;
    forall i | 0 <= i < |s| ensures s[i] == t[i] {
      assert Bytes(s)[i] == Bytes(t)[i];
    }
  }

  lemma PrintAscii(n: nat)
    ensures Ascii(Print(n))
  {
  }

  lemma AsciiAppend(s: string, t: string)
    requires Ascii(s) && Ascii(t)
    ensures Ascii(s + t)
  {
  }

  lemma FieldsAscii(pair: Option<nat>, table: Table)
    ensures Ascii(PairField(pair, table))
  {
    if pair.Some? {
      PrintAscii(pair.value);
    }
    AsciiAppend(Name(table), "\"}");
    AsciiAppend("\"schema\":\"research-cursor/v1\",\"table\":\"", Name(table) + "\"}");
    AsciiAppend(Pair(pair), ",");
    AsciiAppend(Pair(pair) + ",", TableField(table));
  }

  lemma ArtifactAscii(artifact: string, rest: string)
    requires Digest(artifact) && Ascii(rest)
    ensures Ascii("\"artifact\":\"" + (artifact + "\",\"pair\":" + rest))
  {
  }

  lemma DocumentAscii(artifact: string, table: Table, pair: Option<nat>, after: nat)
    requires Digest(artifact)
    ensures Ascii(Document(artifact, table, pair, after))
  {
    FieldsAscii(pair, table);
    ArtifactAscii(artifact, PairField(pair, table));
    PrintAscii(after);
    AsciiAppend(Print(after), ",");
    AsciiAppend(Print(after) + ",", ArtifactField(artifact, pair, table));
    AsciiAppend("{\"after\":", Print(after) + "," + ArtifactField(artifact, pair, table));
  }

  // ----- the document determines its view -----

  lemma AfterPrefix(prefix: string, x: string, y: string)
    requires prefix + x == prefix + y
    ensures x == y
  {
    assert (prefix + x)[|prefix|..] == x && (prefix + y)[|prefix|..] == y;
  }

  lemma SameLengthPrefix(a: string, b: string, x: string, y: string)
    requires |a| == |b| && a + x == b + y
    ensures a == b && x == y
  {
    assert (a + x)[..|a|] == a && (b + y)[..|b|] == b;
    assert (a + x)[|a|..] == x && (b + y)[|b|..] == y;
  }

  lemma TableFieldInjective(t: Table, t': Table)
    requires TableField(t) == TableField(t')
    ensures t == t'
  {
    AfterPrefix("\"schema\":\"research-cursor/v1\",\"table\":\"", Name(t) + "\"}", Name(t') + "\"}");
    assert |Name(t)| == |Name(t')|;
    SameLengthPrefix(Name(t), Name(t'), "\"}", "\"}");
    NameInjective(t, t');
  }

  lemma NameInjective(t: Table, t': Table)
    requires Name(t) == Name(t')
    ensures t == t'
  {
  }

  lemma PairFieldInjective(p: Option<nat>, t: Table, p': Option<nat>, t': Table)
    requires PairField(p, t) == PairField(p', t')
    ensures p == p' && t == t'
  {
    assert PairField(p, t)[0] == Pair(p)[0] && PairField(p', t')[0] == Pair(p')[0];
    if p.Some? {
      PrintCanonical(p.value);
    }
    if p'.Some? {
      PrintCanonical(p'.value);
    }
    if p.Some? && p'.Some? {
      DigitsEnd(',', Print(p.value), TableField(t), Print(p'.value), TableField(t'));
      PrintInjective(p.value, p'.value);
    } else if p.None? && p'.None? {
      AfterPrefix("null" + ",", TableField(t), TableField(t'));
    }
    TableFieldInjective(t, t');
  }

  lemma DocumentInjective(a: string, t: Table, p: Option<nat>, n: nat, a': string, t': Table, p': Option<nat>, n': nat)
    requires |a| == |a'| && Document(a, t, p, n) == Document(a', t', p', n')
    ensures a == a' && t == t' && p == p' && n == n'
  {
    PrintCanonical(n);
    PrintCanonical(n');
    AfterPrefix("{\"after\":", Print(n) + "," + ArtifactField(a, p, t), Print(n') + "," + ArtifactField(a', p', t'));
    DigitsEnd(',', Print(n), ArtifactField(a, p, t), Print(n'), ArtifactField(a', p', t'));
    PrintInjective(n, n');
    AfterPrefix("\"artifact\":\"", a + "\",\"pair\":" + PairField(p, t), a' + "\",\"pair\":" + PairField(p', t'));
    SameLengthPrefix(a + "\",\"pair\":", a' + "\",\"pair\":", PairField(p, t), PairField(p', t'));
    SameLengthPrefix(a, a', "\",\"pair\":", "\",\"pair\":");
    PairFieldInjective(p, t, p', t');
  }

  // ----- cursors -----

  function PageCursor(artifact: string, table: Table, pair: Option<nat>, after: nat): string
    requires Digest(artifact)
  {
    DocumentAscii(artifact, table, pair, after);
    Encode(Bytes(Document(artifact, table, pair, after)))
  }

  /** A cursor names one artifact, table, pair and ordinal. */
  lemma CursorInjective(a: string, t: Table, p: Option<nat>, n: nat, a': string, t': Table, p': Option<nat>, n': nat)
    requires Digest(a) && Digest(a') && PageCursor(a, t, p, n) == PageCursor(a', t', p', n')
    ensures a == a' && t == t' && p == p' && n == n'
  {
    DocumentAscii(a, t, p, n);
    DocumentAscii(a', t', p', n');
    EncodeInjective(Bytes(Document(a, t, p, n)), Bytes(Document(a', t', p', n')));
    BytesInjective(Document(a, t, p, n), Document(a', t', p', n'));
    DocumentInjective(a, t, p, n, a', t', p', n');
  }

  /** Parsing the bytes as JSON, checking the closed set of fields and reading `after` as an
      integer; `None` where any of that fails. */
  type Reader = seq<Byte> -> Option<int>

  /** The JSON library reads back the documents that fit into a cursor; it refuses integers of more than
      4,300 digits, which do not fit. */
  ghost predicate ReadsBack(read: Reader) {
    forall a: string, t: Table, p: Option<nat>, n: nat {:trigger Document(a, t, p, n)} ::
      Digest(a) && n <= UINT64 && |Document(a, t, p, n)| <= MAX_DOCUMENT ==>
        Ascii(Document(a, t, p, n)) && read(Bytes(Document(a, t, p, n))) == Some(n as int)
  }

  /** The ordinal after which a page starts; `Err` stands for the one cursor error. */
  function CursorAfter(read: Reader, cursor: Option<string>, artifact: string, table: Table,
                       pair: Option<nat>): Result<int, ()>
    requires Digest(artifact)
  {
    if cursor.None? then Ok(-1)
    else if !(1 <= |cursor.value| <= MAX_CURSOR) then Err(())
    else
      var raw := Decode(cursor.value);
      if raw.None? then Err(())
      else
        var after := read(raw.value);
        if after.None? || after.value < 0 || after.value > UINT64 then Err(())
        else if PageCursor(artifact, table, pair, after.value) != cursor.value then Err(())
        else Ok(after.value)
  }

  /** Whatever the JSON library does, an accepted cursor is the very text that this view and that
      ordinal generate. */
  lemma AcceptedIsGenerated(read: Reader, c: string, artifact: string, table: Table, pair: Option<nat>)
    requires Digest(artifact) && CursorAfter(read, Some(c), artifact, table, pair).Ok?
    ensures var n := CursorAfter(read, Some(c), artifact, table, pair).value;
            0 <= n <= UINT64 && c == PageCursor(artifact, table, pair, n)
  {
  }

  lemma EncodingFits(length: nat, encoded: nat)
    requires encoded == (length + 2) / 3 * 4 && length > 0
    ensures encoded >= 1 && (encoded <= MAX_CURSOR ==> length <= MAX_DOCUMENT)
  {
  }

  lemma CursorLength(a: string, t: Table, p: Option<nat>, n: nat, encoded: nat, length: nat)
    requires Digest(a) && encoded == |PageCursor(a, t, p, n)| && length == |Document(a, t, p, n)|
    ensures encoded >= 1 && (encoded <= MAX_CURSOR ==> length <= MAX_DOCUMENT)
  {
    DocumentAscii(a, t, p, n);
    EncodeLength(Bytes(Document(a, t, p, n)));
    EncodingFits(length, encoded);
  }

  lemma Unpacked(c: string, a: string, t: Table, p: Option<nat>, n: nat)
    requires Digest(a) && c == PageCursor(a, t, p, n)
    ensures Ascii(Document(a, t, p, n)) && Decode(c) == Some(Bytes(Document(a, t, p, n)))
  {
    DocumentAscii(a, t, p, n);
    DecodeEncode(Bytes(Document(a, t, p, n)));
  }

  /** With a library that reads back what is printed, exactly the generated cursors are accepted,
      each with its own ordinal. */
  lemma AcceptedIffGenerated(read: Reader, c: string, artifact: string, table: Table, pair: Option<nat>, n: nat)
    requires Digest(artifact) && ReadsBack(read)
    ensures CursorAfter(read, Some(c), artifact, table, pair) == Ok(n as int)
            <==> n <= UINT64 && |c| <= MAX_CURSOR && c == PageCursor(artifact, table, pair, n)
  {
    if n <= UINT64 && |c| <= MAX_CURSOR && c == PageCursor(artifact, table, pair, n) {
      CursorLength(artifact, table, pair, n, |c|, |Document(artifact, table, pair, n)|);
      Unpacked(c, artifact, table, pair, n);
    }
  }

  /** A cursor made for one view is refused by every other view. */
  lemma ForeignCursorRefused(read: Reader, a: string, t: Table, p: Option<nat>, n: nat, a': string, t': Table,
                             p': Option<nat>)
    requires Digest(a) && Digest(a') && (a, t, p) != (a', t', p')
    ensures CursorAfter(read, Some(PageCursor(a, t, p, n)), a', t', p').Err?
  {
    var c := PageCursor(a, t, p, n);
    if CursorAfter(read, Some(c), a', t', p').Ok? {
      AcceptedIsGenerated(read, c, a', t', p');
      CursorInjective(a, t, p, n, a', t', p', CursorAfter(read, Some(c), a', t', p').value);
    }
  }

  /** The size limit never refuses a generated cursor: it fits for every 64-bit ordinal and pair. */
  lemma GeneratedFits(artifact: string, table: Table, pair: Option<nat>, n: nat)
    requires Digest(artifact) && n <= UINT64 && (pair.Some? ==> pair.value <= UINT64)
    ensures 1 <= |PageCursor(artifact, table, pair, n)| <= MAX_CURSOR
  {
    DocumentAscii(artifact, table, pair, n);
    PrintShort(n);
    if pair.Some? {
      PrintShort(pair.value);
    }
    assert |TableField(table)| <= 60 && |PairField(pair, table)| <= 81 && |ArtifactField(artifact, pair, table)| <= 200;
    assert 0 < |Document(artifact, table, pair, n)| <= 300;
    EncodeLength(Bytes(Document(artifact, table, pair, n)));
  }
}
