/** The `application/x-www-form-urlencoded` format of section 5 of the WHATWG
    URL Standard, which turns the query of a URL into an ordered list of
    name/value pairs and back: UTF-8 (section 4 of the WHATWG Encoding
    Standard) for text and bytes, percent-encoding for the bytes, `&` between
    pairs and `=` inside each. */
module FormUrlEncoded {
  import opened Seqs

  type Byte = b: int | 0 <= b < 256

  /** One name/value tuple of a query. */
  datatype Pair = Pair(name: string, value: string)

  /** A query as `URLSearchParams` holds it: its pairs, in order. */
  type Query = seq<Pair>

  const Ampersand: Byte := 0x26
  const EqualsSign: Byte := 0x3D
  const PlusSign: Byte := 0x2B
  const PercentSign: Byte := 0x25
  const Space: Byte := 0x20
  const Replacement: char := '\U{FFFD}'

  // ---------------------------------------------------------------------
  // UTF-8
  // ---------------------------------------------------------------------

  /** The UTF-8 bytes of one scalar value. */
  function Utf8Char(c: char): (bs: seq<Byte>)
    ensures 1 <= |bs| <= 4
  {
    var n := c as int;
    if n < 0x80 then [n]
    else if n < 0x800 then [0xC0 + n / 64, 0x80 + n % 64]
    else if n < 0x10000 then [0xE0 + n / 4096, 0x80 + n / 64 % 64, 0x80 + n % 64]
    else [0xF0 + n / 262144, 0x80 + n / 4096 % 64, 0x80 + n / 64 % 64, 0x80 + n % 64]
  }

  /** UTF-8 encode. */
  function Utf8Encode(s: string): seq<Byte>
    decreases |s|
  {
    if s == [] then [] else Utf8Char(s[0]) + Utf8Encode(s[1..])
  }

  /** The scalar value of a two-, three- or four-byte sequence. */
  function Value2(b: int, c1: int): int { (b - 0xC0) * 64 + (c1 - 0x80) }
  function Value3(b: int, c1: int, c2: int): int { (b - 0xE0) * 4096 + (c1 - 0x80) * 64 + (c2 - 0x80) }
  function Value4(b: int, c1: int, c2: int, c3: int): int {
    (b - 0xF0) * 262144 + (c1 - 0x80) * 4096 + (c2 - 0x80) * 64 + (c3 - 0x80)
  }

  /** UTF-8 decode: every well-formed sequence gives its scalar value, and each
      maximal ill-formed part gives one U+FFFD (the WHATWG UTF-8 decoder). */
  function Utf8Decode(bs: seq<Byte>): string
    decreases |bs|
  {
    if bs == [] then []
    else
      var b: int := bs[0];
      if b < 0x80 then [b as char] + Utf8Decode(bs[1..])
      else if 0xC2 <= b <= 0xDF then
        if |bs| >= 2 && 0x80 <= bs[1] <= 0xBF then
          [Value2(b, bs[1]) as char] + Utf8Decode(bs[2..])
        else [Replacement] + Utf8Decode(bs[1..])
      else if 0xE0 <= b <= 0xEF then
        var lower := if b == 0xE0 then 0xA0 else 0x80;
        var upper := if b == 0xED then 0x9F else 0xBF;
        if |bs| >= 2 && lower <= bs[1] <= upper then
          if |bs| >= 3 && 0x80 <= bs[2] <= 0xBF then
            [Value3(b, bs[1], bs[2]) as char] + Utf8Decode(bs[3..])
          else [Replacement] + Utf8Decode(bs[2..])
        else [Replacement] + Utf8Decode(bs[1..])
      else if 0xF0 <= b <= 0xF4 then
        var lower := if b == 0xF0 then 0x90 else 0x80;
        var upper := if b == 0xF4 then 0x8F else 0xBF;
        if |bs| >= 2 && lower <= bs[1] <= upper then
          if |bs| >= 3 && 0x80 <= bs[2] <= 0xBF then
            if |bs| >= 4 && 0x80 <= bs[3] <= 0xBF then
              [Value4(b, bs[1], bs[2], bs[3]) as char] + Utf8Decode(bs[4..])
            else [Replacement] + Utf8Decode(bs[3..])
          else [Replacement] + Utf8Decode(bs[2..])
        else [Replacement] + Utf8Decode(bs[1..])
      else [Replacement] + Utf8Decode(bs[1..])
  }

  /** One character per decoding step, by the length of its encoding. */
  lemma Decode1(c: char, rest: seq<Byte>)
    requires c as int < 0x80
    ensures Utf8Decode(Utf8Char(c) + rest) == [c] + Utf8Decode(rest)
  {
    assert (Utf8Char(c) + rest)[1..] == rest;
  }

  lemma Decode2(c: char, rest: seq<Byte>)
    requires 0x80 <= c as int < 0x800
    ensures Utf8Decode(Utf8Char(c) + rest) == [c] + Utf8Decode(rest)
  {
    var n := c as int;
    var bs := Utf8Char(c) + rest;
    assert bs[0] == 0xC0 + n / 64 && bs[1] == 0x80 + n % 64;
    assert bs[2..] == rest;
    assert Value2(bs[0], bs[1]) == n;
  }

  /** The three bytes of a scalar value above U+07FF and below U+10000 pass the
      decoder's range checks (no surrogate is a scalar value). */
  lemma Bytes3(n: int)
    requires 0x800 <= n < 0x10000 && !(0xD800 <= n <= 0xDFFF)
    ensures 0xE0 <= 0xE0 + n / 4096 <= 0xEF
    ensures n / 4096 == 0 ==> n / 64 % 64 >= 0x20
    ensures n / 4096 == 0xD ==> n / 64 % 64 <= 0x1F
    ensures Value3(0xE0 + n / 4096, 0x80 + n / 64 % 64, 0x80 + n % 64) == n
  {
    var q1, d := n / 64, n % 64;
    var q2, c1 := q1 / 64, q1 % 64;
    assert n == 64 * q1 + d && q1 == 64 * q2 + c1;
    assert n / 4096 == q2;
  }

  lemma Decode3(c: char, rest: seq<Byte>)
    requires 0x800 <= c as int < 0x10000
    ensures Utf8Decode(Utf8Char(c) + rest) == [c] + Utf8Decode(rest)
  {
    var n := c as int;
    Bytes3(n);
    var bs := Utf8Char(c) + rest;
    var b, c1, c2 := 0xE0 + n / 4096, 0x80 + n / 64 % 64, 0x80 + n % 64;
    assert bs[0] == b && bs[1] == c1 && bs[2] == c2;
    assert bs[3..] == rest;
  }

  /** The four bytes of a supplementary scalar value pass the decoder's range checks. */
  lemma Bytes4(n: int)
    requires 0x10000 <= n < 0x110000
    ensures 0xF0 <= 0xF0 + n / 262144 <= 0xF4
    ensures n / 262144 == 0 ==> n / 4096 % 64 >= 0x10
    ensures n / 262144 == 4 ==> n / 4096 % 64 <= 0x0F
    ensures Value4(0xF0 + n / 262144, 0x80 + n / 4096 % 64, 0x80 + n / 64 % 64, 0x80 + n % 64) == n
  {
    var q1, d := n / 64, n % 64;
    var q2, c2 := q1 / 64, q1 % 64;
    var q3, c1 := q2 / 64, q2 % 64;
    assert n == 64 * q1 + d && q1 == 64 * q2 + c2 && q2 == 64 * q3 + c1;
    assert n / 4096 == q2 && n / 262144 == q3;
  }

  lemma Decode4(c: char, rest: seq<Byte>)
    requires 0x10000 <= c as int
    ensures Utf8Decode(Utf8Char(c) + rest) == [c] + Utf8Decode(rest)
  {
    var n := c as int;
    Bytes4(n);
    var bs := Utf8Char(c) + rest;
    var b, c1, c2, c3 := 0xF0 + n / 262144, 0x80 + n / 4096 % 64, 0x80 + n / 64 % 64, 0x80 + n % 64;
    assert bs[0] == b && bs[1] == c1 && bs[2] == c2 && bs[3] == c3;
    assert bs[4..] == rest;
  }

  /** Decoding reads the bytes of one scalar value back as that value. */
  lemma Utf8CharDecode(c: char, rest: seq<Byte>)
    ensures Utf8Decode(Utf8Char(c) + rest) == [c] + Utf8Decode(rest)
  {
    var n := c as int;
    if n < 0x80 {
      Decode1(c, rest);
    } else if n < 0x800 {
      Decode2(c, rest);
    } else if n < 0x10000 {
      Decode3(c, rest);
    } else {
      Decode4(c, rest);
    }
  }

  /** UTF-8 decoding undoes UTF-8 encoding. */
  lemma {:induction false} Utf8RoundTrip(s: string)
    ensures Utf8Decode(Utf8Encode(s)) == s
    decreases |s|
  {
    if s != [] {
      Utf8RoundTrip(s[1..]);
      Utf8CharDecode(s[0], Utf8Encode(s[1..]));
      assert [s[0]] + s[1..] == s;
    }
  }

  // ---------------------------------------------------------------------
  // Percent-encoding
  // ---------------------------------------------------------------------

  /** The bytes the serializer leaves as they are: ASCII alphanumerics and `*-._`. */
  predicate IsUnreserved(b: Byte) {
    || 0x30 <= b <= 0x39 || 0x41 <= b <= 0x5A || 0x61 <= b <= 0x7A
    || b == 0x2A || b == 0x2D || b == 0x2E || b == 0x5F
  }

  predicate IsHexDigit(b: Byte) {
    0x30 <= b <= 0x39 || 0x41 <= b <= 0x46 || 0x61 <= b <= 0x66
  }

  function HexValue(b: Byte): (v: nat)
    requires IsHexDigit(b)
    ensures v < 16
  {
    if b <= 0x39 then b - 0x30 else if b <= 0x46 then b - 0x41 + 10 else b - 0x61 + 10
  }

  /** The upper-case hexadecimal digit the serializer writes. */
  function HexDigit(d: nat): (b: Byte)
    requires d < 16
    ensures IsHexDigit(b) && HexValue(b) == d
  {
    if d < 10 then 0x30 + d else 0x41 + d - 10
  }

  /** One byte as the serializer writes it: itself, `+` for a space, or `%XX`. */
  function EncodeByte(b: Byte): seq<Byte> {
    if IsUnreserved(b) then [b]
    else if b == Space then [PlusSign]
    else [PercentSign, HexDigit(b / 16), HexDigit(b % 16)]
  }

  function EncodeBytes(bs: seq<Byte>): seq<Byte>
    decreases |bs|
  {
    if bs == [] then [] else EncodeByte(bs[0]) + EncodeBytes(bs[1..])
  }

  /** A name or a value as the serializer writes it. */
  function EncodeText(s: string): seq<Byte> {
    EncodeBytes(Utf8Encode(s))
  }

  /** What the serializer writes holds only ASCII bytes and neither `&` nor `=`. */
  predicate IsEncoded(bs: seq<Byte>) {
    forall i | 0 <= i < |bs| :: bs[i] < 0x80 && bs[i] != Ampersand && bs[i] != EqualsSign
  }

  lemma {:induction false} EncodedBytes(bs: seq<Byte>)
    ensures IsEncoded(EncodeBytes(bs))
    decreases |bs|
  {
    if bs != [] {
      EncodedBytes(bs[1..]);
      var e := EncodeByte(bs[0]);
      assert forall i | 0 <= i < |e| :: e[i] < 0x80 && e[i] != Ampersand && e[i] != EqualsSign;
    }
  }

  /** The parser's first step on a name or a value: every `+` becomes a space. */
  function PlusToSpace(bs: seq<Byte>): (r: seq<Byte>)
    ensures |r| == |bs|
  {
    seq(|bs|, i requires 0 <= i < |bs| => if bs[i] == PlusSign then Space else bs[i])
  }

  /** Percent-decode: `%` and two hexadecimal digits give the byte they spell;
      any other byte, a lone `%` included, is kept. */
  function PercentDecode(bs: seq<Byte>): seq<Byte>
    decreases |bs|
  {
    if bs == [] then []
    else if bs[0] == PercentSign && |bs| >= 3 && IsHexDigit(bs[1]) && IsHexDigit(bs[2]) then
      [HexValue(bs[1]) * 16 + HexValue(bs[2])] + PercentDecode(bs[3..])
    else [bs[0]] + PercentDecode(bs[1..])
  }

  /** Undoing one encoded byte. */
  lemma DecodeEncodedByte(b: Byte, rest: seq<Byte>)
    ensures PercentDecode(PlusToSpace(EncodeByte(b)) + PlusToSpace(rest)) == [b] + PercentDecode(PlusToSpace(rest))
  {
    var e := PlusToSpace(EncodeByte(b));
    var t := PlusToSpace(rest);
    if IsUnreserved(b) {
      assert e == [b];
      assert (e + t)[1..] == t;
    } else if b == Space {
      assert e == [Space];
      assert (e + t)[1..] == t;
    } else {
      assert e == [PercentSign, HexDigit(b / 16), HexDigit(b % 16)];
      assert (e + t)[3..] == t;
    }
  }

  /** The `+` step works byte by byte, so it distributes over concatenation. */
  lemma PlusToSpaceAppend(a: seq<Byte>, b: seq<Byte>)
    ensures PlusToSpace(a + b) == PlusToSpace(a) + PlusToSpace(b)
  {
  }

  /** Percent-decoding, after the `+` step, undoes the serializer's byte encoding. */
  lemma {:induction false} PercentRoundTrip(bs: seq<Byte>)
    ensures PercentDecode(PlusToSpace(EncodeBytes(bs))) == bs
    decreases |bs|
  {
    if bs != [] {
      var e, r := EncodeByte(bs[0]), EncodeBytes(bs[1..]);
      PercentRoundTrip(bs[1..]);
      PlusToSpaceAppend(e, r);
      DecodeEncodedByte(bs[0], r);
      assert [bs[0]] + bs[1..] == bs;
    }
  }

  /** The text of a name or a value, from its bytes in the query. */
  function DecodeText(bs: seq<Byte>): string {
    Utf8Decode(PercentDecode(PlusToSpace(bs)))
  }

  lemma TextRoundTrip(s: string)
    ensures DecodeText(EncodeText(s)) == s
  {
    PercentRoundTrip(Utf8Encode(s));
    Utf8RoundTrip(s);
  }

  // ---------------------------------------------------------------------
  // Serializing and parsing a query
  // ---------------------------------------------------------------------

  function EncodePair(p: Pair): seq<Byte> {
    EncodeText(p.name) + [EqualsSign] + EncodeText(p.value)
  }

  function EncodePairs(q: Query): (r: seq<seq<Byte>>)
    ensures |r| == |q|
  {
    seq(|q|, i requires 0 <= i < |q| => EncodePair(q[i]))
  }

  /** The bytes as text; the serializer's output is ASCII, one character per byte. */
  function AsText(bs: seq<Byte>): (s: string)
    requires forall i | 0 <= i < |bs| :: bs[i] < 0x80
    ensures |s| == |bs|
  {
    seq(|bs|, i requires 0 <= i < |bs| => bs[i] as char)
  }

  /** The `application/x-www-form-urlencoded` serializer: each pair as
      `name=value`, joined by `&`. */
  function Serialize(q: Query): string {
    var bs := Join(EncodePairs(q), Ampersand);
    SerializedIsAscii(q);
    AsText(bs)
  }

  lemma SerializedIsAscii(q: Query)
    ensures forall i | 0 <= i < |Join(EncodePairs(q), Ampersand)| :: Join(EncodePairs(q), Ampersand)[i] < 0x80
  {
    var parts := EncodePairs(q);
    forall k | 0 <= k < |q|
      ensures forall i | 0 <= i < |parts[k]| :: parts[k][i] < 0x80
    {
      EncodedBytes(Utf8Encode(q[k].name));
      EncodedBytes(Utf8Encode(q[k].value));
      assert parts[k] == EncodeText(q[k].name) + [EqualsSign] + EncodeText(q[k].value);
    }
    JoinOfAscii(parts);
  }

  lemma {:induction false} JoinOfAscii(parts: seq<seq<Byte>>)
    requires forall k, i | 0 <= k < |parts| && 0 <= i < |parts[k]| :: parts[k][i] < 0x80
    ensures forall i | 0 <= i < |Join(parts, Ampersand)| :: Join(parts, Ampersand)[i] < 0x80
    decreases |parts|
  {
    if |parts| > 1 {
      JoinOfAscii(parts[1..]);
      assert Join(parts, Ampersand) == parts[0] + [Ampersand] + Join(parts[1..], Ampersand);
    }
  }

  /** One `&`-separated piece: the name before its first `=`, the value after it
      (empty when there is no `=`). */
  function ParsePiece(piece: seq<Byte>): Pair {
    var k := IndexOf(piece, EqualsSign);
    if k < 0 then Pair(DecodeText(piece), "")
    else Pair(DecodeText(piece[..k]), DecodeText(piece[k + 1..]))
  }

  /** The pairs of the pieces, empty pieces skipped. */
  function ParsePieces(pieces: seq<seq<Byte>>): Query
    decreases |pieces|
  {
    if pieces == [] then []
    else if pieces[0] == [] then ParsePieces(pieces[1..])
    else [ParsePiece(pieces[0])] + ParsePieces(pieces[1..])
  }

  /** The `application/x-www-form-urlencoded` parser, on the UTF-8 bytes of the text. */
  function Parse(s: string): Query {
    ParsePieces(Split(Utf8Encode(s), Ampersand))
  }

  /** ASCII text is its own UTF-8 encoding. */
  lemma {:induction false} AsciiUtf8(bs: seq<Byte>)
    requires forall i | 0 <= i < |bs| :: bs[i] < 0x80
    ensures Utf8Encode(AsText(bs)) == bs
    decreases |bs|
  {
    if bs != [] {
      AsciiUtf8(bs[1..]);
      assert AsText(bs)[1..] == AsText(bs[1..]);
      assert [bs[0]] + bs[1..] == bs;
    }
  }

  /** Parsing one encoded pair gives the pair back. */
  lemma PieceRoundTrip(p: Pair)
    ensures EncodePair(p) != [] && ParsePiece(EncodePair(p)) == p
  {
    var n, v := EncodeText(p.name), EncodeText(p.value);
    EncodedBytes(Utf8Encode(p.name));
    PieceThenSeparator(n, EqualsSign, v);
    TextRoundTrip(p.name);
    TextRoundTrip(p.value);
  }

  /** The encoded pairs of a non-empty query: its first pair's, then the rest's. */
  lemma EncodePairsSplit(q: Query)
    requires q != []
    ensures EncodePairs(q) == [EncodePair(q[0])] + EncodePairs(q[1..])
  {
    var r := EncodePairs(q);
    assert r[1..] == EncodePairs(q[1..]);
    assert r == [r[0]] + r[1..];
  }

  lemma {:induction false} PiecesRoundTrip(q: Query)
    ensures ParsePieces(EncodePairs(q)) == q
    decreases |q|
  {
    if q != [] {
      var pieces := EncodePairs(q);
      EncodePairsSplit(q);
      PieceRoundTrip(q[0]);
      PiecesRoundTrip(q[1..]);
      assert pieces[1..] == EncodePairs(q[1..]);
      assert [q[0]] + q[1..] == q;
    }
  }

  /** Parsing the serialization of a query gives the same pairs in the same order. */
  lemma ParseSerialize(q: Query)
    ensures Parse(Serialize(q)) == q
  {
    var parts := EncodePairs(q);
    var bs := Join(parts, Ampersand);
    SerializedIsAscii(q);
    AsciiUtf8(bs);
    assert Serialize(q) == AsText(bs);
    if q == [] {
      var pieces: seq<seq<Byte>> := [[]];
      assert Split(bs, Ampersand) == pieces && pieces[1..] == [];
    } else {
      forall k | 0 <= k < |parts|
        ensures Ampersand !in parts[k]
      {
        EncodedBytes(Utf8Encode(q[k].name));
        EncodedBytes(Utf8Encode(q[k].value));
      }
      SplitJoin(parts, Ampersand);
      PiecesRoundTrip(q);
    }
  }
}
