/** The URL-safe base64 encoding with padding, section 5 of RFC 4648. */
module Base64 {
  import opened Results

  type Byte = b: int | 0 <= b < 256

  /** Character of a six-bit value. */
  function Symbol(n: nat): char
    requires n < 64
  {
    if n < 26 then (65 + n) as char
    else if n < 52 then (97 + n - 26) as char
    else if n < 62 then (48 + n - 52) as char
    else if n == 62 then '-' else '_'
  }

  /** Six-bit value of a character; the standard alphabet's last two are accepted as well. */
  function Sextet(c: char): Option<nat> {
    if 'A' <= c <= 'Z' then Some(c as int - 65)
    else if 'a' <= c <= 'z' then Some(c as int - 97 + 26)
    else if '0' <= c <= '9' then Some(c as int - 48 + 52)
    else if c == '-' || c == '+' then Some(62)
    else if c == '_' || c == '/' then Some(63)
    else None
  }

  lemma SextetOfSymbol(n: nat)
    requires n < 64
    ensures Sextet(Symbol(n)) == Some(n) && Symbol(n) != '='
  {
  }

  /** The URL-safe alphabet, table 2 of RFC 4648. */
  lemma SymbolIs(n: nat)
    requires n < 64
    ensures n < 26 ==> Symbol(n) == "ABCDEFGHIJKLMNOPQRSTUVWXYZ"[n]
    ensures 26 <= n < 52 ==> Symbol(n) == "abcdefghijklmnopqrstuvwxyz"[n - 26]
    ensures 52 <= n < 62 ==> Symbol(n) == "0123456789"[n - 52]
    ensures n == 62 ==> Symbol(n) == '-'
    ensures n == 63 ==> Symbol(n) == '_'
  {
  }

  /** Four characters for three bytes. */
  function Quad(x: Byte, y: Byte, z: Byte): string {
    [Symbol(x / 4), Symbol(x % 4 * 16 + y / 16), Symbol(y % 16 * 4 + z / 64), Symbol(z % 64)]
  }

  function Encode(bs: seq<Byte>): string {
    if bs == [] then ""
    else if |bs| == 1 then [Symbol(bs[0] / 4), Symbol(bs[0] % 4 * 16), '=', '=']
    else if |bs| == 2 then [Symbol(bs[0] / 4), Symbol(bs[0] % 4 * 16 + bs[1] / 16), Symbol(bs[1] % 16 * 4), '=']
    else Quad(bs[0], bs[1], bs[2]) + Encode(bs[3..])
  }

  /** The bytes of one full group of four characters. */
  function Group(s: string): Option<seq<Byte>>
    requires |s| >= 4
  {
    var a, b, c, d := Sextet(s[0]), Sextet(s[1]), Sextet(s[2]), Sextet(s[3]);
    if a.None? || b.None? || c.None? || d.None? then None
    else if a.value < 64 && b.value < 64 && c.value < 64 && d.value < 64 then
      Some([a.value * 4 + b.value / 16, b.value % 16 * 16 + c.value / 4, c.value % 4 * 64 + d.value])
    else None
  }

  /** The bytes of a last group, which may be padded. */
  function LastGroup(s: string): Option<seq<Byte>>
    requires |s| == 4
  {
    if s[3] != '=' then Group(s)
    else
      var a, b := Sextet(s[0]), Sextet(s[1]);
      if a.None? || b.None? || a.value >= 64 || b.value >= 64 then None
      else if s[2] == '=' then Some([a.value * 4 + b.value / 16])
      else
        var c := Sextet(s[2]);
        if c.None? || c.value >= 64 then None
        else Some([a.value * 4 + b.value / 16, b.value % 16 * 16 + c.value / 4])
  }

  /** Groups of four, padding only in the last one. */
  function Decode(s: string): Option<seq<Byte>> {
    if s == "" then Some([])
    else if |s| < 4 then None
    else if |s| == 4 then LastGroup(s)
    else
      var head, tail := Group(s[..4]), Decode(s[4..]);
      if head.None? || tail.None? then None else Some(head.value + tail.value)
  }

  lemma Thirds(n: nat)
    requires n >= 3
    ensures (n - 3 + 2) / 3 * 4 + 4 == (n + 2) / 3 * 4
  {
  }

  lemma {:induction false} EncodeLength(bs: seq<Byte>)
    ensures |Encode(bs)| == (|bs| + 2) / 3 * 4
  {
    if |bs| > 2 {
      EncodeLength(bs[3..]);
      Thirds(|bs|);
      assert |Encode(bs)| == 4 + |Encode(bs[3..])|;
    }
  }

  lemma Repack(x: Byte, y: Byte, z: Byte)
    ensures x / 4 * 4 + (x % 4 * 16 + y / 16) / 16 == x
    ensures (x % 4 * 16 + y / 16) % 16 * 16 + (y % 16 * 4 + z / 64) / 4 == y
    ensures (y % 16 * 4 + z / 64) % 4 * 64 + z % 64 == z
  {
  }

  lemma GroupOfThree(x: Byte, y: Byte, z: Byte)
    ensures Group(Quad(x, y, z)) == Some([x, y, z])
    ensures Quad(x, y, z)[3] != '='
  {
    SextetOfSymbol(x / 4);
    SextetOfSymbol(x % 4 * 16 + y / 16);
    SextetOfSymbol(y % 16 * 4 + z / 64);
    SextetOfSymbol(z % 64);
    Repack(x, y, z);
  }

  lemma LastOfTwo(x: Byte, y: Byte)
    ensures LastGroup(Encode([x, y])) == Some([x, y])
  {
    SextetOfSymbol(x / 4);
    SextetOfSymbol(x % 4 * 16 + y / 16);
    SextetOfSymbol(y % 16 * 4);
    Repack(x, y, 0);
  }

  lemma LastOfOne(x: Byte)
    ensures LastGroup(Encode([x])) == Some([x])
  {
  }

  /** The number that four sextets write in base 64. */
  function Base64Value(a: nat, b: nat, c: nat, d: nat): nat { ((a * 64 + b) * 64 + c) * 64 + d }

  /** Three bytes and their four characters write the same number, the first digit leading. */
  lemma QuadValue(x: Byte, y: Byte, z: Byte)
    ensures var q := Quad(x, y, z);
            && |q| == 4 && (forall i :: 0 <= i < 4 ==> Sextet(q[i]).Some?)
            && Base64Value(Sextet(q[0]).value, Sextet(q[1]).value, Sextet(q[2]).value, Sextet(q[3]).value)
               == (x * 256 + y) * 256 + z
  {
    SextetOfSymbol(x / 4);
    SextetOfSymbol(x % 4 * 16 + y / 16);
    SextetOfSymbol(y % 16 * 4 + z / 64);
    SextetOfSymbol(z % 64);
  }

  /** Padding: one byte and two are written like three with zeros after them, the unused characters replaced. */
  lemma PaddedGroups(x: Byte, y: Byte)
    ensures Encode([x]) == Quad(x, 0, 0)[..2] + "=="
    ensures Encode([x, y]) == Quad(x, y, 0)[..3] + "="
  {
  }

  /** Decoding inverts encoding on every byte string. */
  lemma {:induction false} DecodeEncode(bs: seq<Byte>)
    ensures Decode(Encode(bs)) == Some(bs)
  {
    if |bs| == 1 {
      LastOfOne(bs[0]);
      assert bs == [bs[0]];
    } else if |bs| == 2 {
      LastOfTwo(bs[0], bs[1]);
      assert bs == [bs[0], bs[1]];
    } else if |bs| > 2 {
      DecodeEncode(bs[3..]);
      EncodeLength(bs[3..]);
      var q, rest := Quad(bs[0], bs[1], bs[2]), Encode(bs[3..]);
      GroupOfThree(bs[0], bs[1], bs[2]);
      DecodeStep(q, rest, [bs[0], bs[1], bs[2]], bs[3..]);
      assert bs == [bs[0], bs[1], bs[2]] + bs[3..];
    }
  }

  lemma DecodeStep(q: string, rest: string, head: seq<Byte>, tail: seq<Byte>)
    requires |q| == 4 && q[3] != '=' && Group(q) == Some(head)
    requires Decode(rest) == Some(tail) && (rest == "" || |rest| >= 4)
    ensures Decode(q + rest) == Some(head + tail)
  {
    assert (q + rest)[..4] == q && (q + rest)[4..] == rest;
    if rest == "" {
      assert q + rest == q;
      assert head + tail == head;
    }
  }

  lemma EncodeInjective(x: seq<Byte>, y: seq<Byte>)
    requires Encode(x) == Encode(y)
    ensures x == y
  {
    DecodeEncode(x);
    DecodeEncode(y);
  }
}
