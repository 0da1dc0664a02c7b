/**
 * `URLSearchParams.prototype.toString` as the API client uses it to build
 * the query of `GET /places`: the application/x-www-form-urlencoded
 * serializer of the WHATWG URL Standard (section 5.2). Each name and value
 * is encoded as UTF-8; a space byte becomes `+`; the bytes of `*`, `-`,
 * `.`, `_`, the digits and the ASCII letters stay as they are; every other
 * byte becomes `%` and two upper-case hexadecimal digits. Pairs are written
 * `name=value` and joined by `&`.
 *
 * The partner of the serializer is the standard's parser (section 5.1),
 * modelled here on bytes: split on `&`, split each part at its first `=`,
 * turn `+` into a space and decode the percent escapes. The main result,
 * `ParseSerialize`, is that parsing a serialized list gives back the UTF-8
 * bytes of every name and value, in order; `DecodeUtf8String` then gives
 * back the strings themselves.
 */
module FormEncoding {
  import opened Wrappers

  type Byte = b: int | 0 <= b < 256

  // ---------------------------------------------------------------------
  // UTF-8

  predicate IsContinuation(b: Byte) {
    0x80 <= b < 0xC0
  }

  /** The UTF-8 encoding of one Unicode scalar value. */
  function Utf8(c: char): (bs: seq<Byte>)
    ensures 1 <= |bs| <= 4
    ensures c as int < 0x80 <==> |bs| == 1
    ensures |bs| == 1 ==> bs[0] == c as int
  {
    var n := c as int;
    if n < 0x80 then [n]
    else if n < 0x800 then [0xC0 + n / 64, 0x80 + n % 64]
    else if n < 0x1_0000 then [0xE0 + n / 4096, 0x80 + (n / 64) % 64, 0x80 + n % 64]
    else [0xF0 + n / 262144, 0x80 + (n / 4096) % 64, 0x80 + (n / 64) % 64, 0x80 + n % 64]
  }

  function Utf8String(s: string): seq<Byte>
  {
    if s == [] then [] else Utf8(s[0]) + Utf8String(s[1..])
  }

  /** Decodes the one character that `bs` starts with, and its length in bytes. */
  function DecodeChar(bs: seq<Byte>): (r: Option<(char, nat)>)
    requires |bs| > 0
    ensures r.Some? ==> 1 <= r.value.1 <= |bs|
  {
    var b0: int := bs[0];
    if b0 < 0x80 then Some((b0 as char, 1))
    else if 0xC2 <= b0 < 0xE0 && |bs| >= 2 && IsContinuation(bs[1]) then
      Some((Value2(b0, bs[1]) as char, 2))
    else if 0xE0 <= b0 < 0xF0 && |bs| >= 3 && IsContinuation(bs[1]) && IsContinuation(bs[2]) then
      var n := Value3(b0, bs[1], bs[2]);
      if 0x800 <= n && !(0xD800 <= n < 0xE000) then Some((n as char, 3)) else None
    else if 0xF0 <= b0 < 0xF5 && |bs| >= 4
            && IsContinuation(bs[1]) && IsContinuation(bs[2]) && IsContinuation(bs[3]) then
      var n := Value4(b0, bs[1], bs[2], bs[3]);
      if 0x1_0000 <= n < 0x11_0000 then Some((n as char, 4)) else None
    else None
  }

  function Value2(b0: int, b1: int): (n: int)
    requires 0xC2 <= b0 < 0xE0 && 0x80 <= b1 < 0xC0
    ensures 0x80 <= n < 0x800
  {
    (b0 - 0xC0) * 64 + (b1 - 0x80)
  }

  function Value3(b0: int, b1: int, b2: int): int
  {
    (b0 - 0xE0) * 4096 + (b1 - 0x80) * 64 + (b2 - 0x80)
  }

  function Value4(b0: int, b1: int, b2: int, b3: int): int
  {
    (b0 - 0xF0) * 262144 + (b1 - 0x80) * 4096 + (b2 - 0x80) * 64 + (b3 - 0x80)
  }

  /** UTF-8 decoding; `None` for a byte sequence that is not well-formed UTF-8. */
  function DecodeUtf8(bs: seq<Byte>): Option<string>
    decreases |bs|
  {
    if bs == [] then Some([])
    else
      match DecodeChar(bs)
      case None => None
      case Some(cl) =>
        match DecodeUtf8(bs[cl.1..])
        case None => None
        case Some(rest) => Some([cl.0] + rest)
  }

  lemma Utf8Value2(n: int)
    requires 0x80 <= n < 0x800
    ensures 0xC2 <= 0xC0 + n / 64 < 0xE0 && 0x80 <= 0x80 + n % 64 < 0xC0
    ensures Value2(0xC0 + n / 64, 0x80 + n % 64) == n
  {
  }

  lemma Utf8Value3(n: int)
    requires 0x800 <= n < 0x1_0000
    ensures Value3(0xE0 + n / 4096, 0x80 + (n / 64) % 64, 0x80 + n % 64) == n
  {
    assert n / 64 == (n / 4096) * 64 + (n / 64) % 64;
  }

  lemma Utf8Value4(n: int)
    requires 0x1_0000 <= n < 0x11_0000
    ensures Value4(0xF0 + n / 262144, 0x80 + (n / 4096) % 64, 0x80 + (n / 64) % 64, 0x80 + n % 64) == n
  {
    assert n / 4096 == (n / 262144) * 64 + (n / 4096) % 64;
    assert n / 64 == (n / 4096) * 64 + (n / 64) % 64;
  }

  lemma DecodeCharUtf8(c: char, rest: seq<Byte>)
    ensures DecodeChar(Utf8(c) + rest) == Some((c, |Utf8(c)|))
  {
    var n := c as int;
    if n < 0x80 {
    } else if n < 0x800 {
      Utf8Value2(n);
    } else if n < 0x1_0000 {
      Utf8Value3(n);
    } else {
      Utf8Value4(n);
    }
  }

  /** UTF-8 is lossless: decoding the encoding of a string gives the string. */
  lemma {:induction false} DecodeUtf8String(s: string)
    ensures DecodeUtf8(Utf8String(s)) == Some(s)
  {
    if s != [] {
      var bs := Utf8String(s);
      DecodeCharUtf8(s[0], Utf8String(s[1..]));
      assert bs[|Utf8(s[0])|..] == Utf8String(s[1..]);
      DecodeUtf8String(s[1..]);
      assert s == [s[0]] + s[1..];
    }
  }

  lemma Utf8StringAppend(a: string, b: string)
    ensures Utf8String(a + b) == Utf8String(a) + Utf8String(b)
  {
    if a != [] {
      assert (a + b)[1..] == a[1..] + b;
      assert (a + b)[0] == a[0];
      Utf8StringAppend(a[1..], b);
    } else {
      assert a + b == b;
    }
  }

  // ---------------------------------------------------------------------
  // Percent-encoding of bytes

  /** The bytes the form serializer leaves as they are. */
  predicate IsUnreserved(b: int) {
    b == 0x2A || b == 0x2D || b == 0x2E || 0x30 <= b <= 0x39 ||
    0x41 <= b <= 0x5A || b == 0x5F || 0x61 <= b <= 0x7A
  }

  function HexDigit(d: nat): (c: char)
    requires d < 16
    ensures IsUnreserved(c as int)
  {
    "0123456789ABCDEF"[d]
  }

  predicate IsHexDigit(c: char) {
    '0' <= c <= '9' || 'A' <= c <= 'F' || 'a' <= c <= 'f'
  }

  function HexValue(c: char): (d: nat)
    requires IsHexDigit(c)
    ensures d < 16
  {
    if c <= '9' then c as int - '0' as int
    else if c <= 'F' then c as int - 'A' as int + 10
    else c as int - 'a' as int + 10
  }

  lemma HexRoundTrip(d: nat)
    requires d < 16
    ensures IsHexDigit(HexDigit(d)) && HexValue(HexDigit(d)) == d
  {
  }

  function SerializeByte(b: Byte): (t: string)
    ensures 1 <= |t| <= 3
  {
    if b == 0x20 then "+"
    else if IsUnreserved(b) then [b as char]
    else ['%', HexDigit(b / 16), HexDigit(b % 16)]
  }

  function SerializeBytes(bs: seq<Byte>): string
  {
    if bs == [] then "" else SerializeByte(bs[0]) + SerializeBytes(bs[1..])
  }

  /** One name or value, as `URLSearchParams` writes it. */
  function Serialize(s: string): string
  {
    SerializeBytes(Utf8String(s))
  }

  /** Percent-decoding with `+` read as a space, on the bytes of a string. */
  function PercentDecode(t: string): seq<Byte>
    decreases |t|
  {
    if t == [] then []
    else if t[0] == '+' then [0x20] + PercentDecode(t[1..])
    else if t[0] == '%' && |t| >= 3 && IsHexDigit(t[1]) && IsHexDigit(t[2]) then
      [HexValue(t[1]) * 16 + HexValue(t[2])] + PercentDecode(t[3..])
    else Utf8(t[0]) + PercentDecode(t[1..])
  }

  lemma PercentDecodeByte(b: Byte, rest: string)
    ensures PercentDecode(SerializeByte(b) + rest) == [b] + PercentDecode(rest)
  {
    var t := SerializeByte(b) + rest;
    if b == 0x20 {
      assert t[1..] == rest;
    } else if IsUnreserved(b) {
      assert t[1..] == rest;
    } else {
      HexRoundTrip(b / 16);
      HexRoundTrip(b % 16);
      assert t[3..] == rest;
    }
  }

  /** Decoding undoes the serializer, byte for byte. */
  lemma {:induction false} PercentDecodeSerialize(bs: seq<Byte>)
    ensures PercentDecode(SerializeBytes(bs)) == bs
  {
    if bs != [] {
      PercentDecodeByte(bs[0], SerializeBytes(bs[1..]));
      PercentDecodeSerialize(bs[1..]);
      assert bs == [bs[0]] + bs[1..];
    }
  }

  /**
   * The characters a serialized name or value is made of: unreserved
   * characters, `+` and `%`. None of them is `&`, `=`, `#` or a space,
   * so a serialized component never breaks the query apart.
   */
  predicate IsFormChar(c: char) {
    c == '+' || c == '%' || IsUnreserved(c as int)
  }

  predicate AllFormChars(t: string) {
    forall i :: 0 <= i < |t| ==> IsFormChar(t[i])
  }

  lemma {:induction false} SerializeBytesChars(bs: seq<Byte>)
    ensures AllFormChars(SerializeBytes(bs))
  {
    if bs != [] {
      SerializeBytesChars(bs[1..]);
      var t := SerializeBytes(bs);
      assert t == SerializeByte(bs[0]) + SerializeBytes(bs[1..]);
      forall i | 0 <= i < |t| ensures IsFormChar(t[i]) {
        if i >= |SerializeByte(bs[0])| {
          assert t[i] == SerializeBytes(bs[1..])[i - |SerializeByte(bs[0])|];
        }
      }
    }
  }

  lemma SerializeChars(s: string)
    ensures AllFormChars(Serialize(s))
    ensures forall i :: 0 <= i < |Serialize(s)| ==> Serialize(s)[i] !in "&=# "
  {
    SerializeBytesChars(Utf8String(s));
  }

  lemma {:induction false} SerializeBytesEmpty(bs: seq<Byte>)
    ensures SerializeBytes(bs) == "" <==> bs == []
  {
  }

  lemma SerializeAscii(s: string)
    requires forall i :: 0 <= i < |s| ==> IsUnreserved(s[i] as int)
    ensures Serialize(s) == s
  {
    if s != [] {
      SerializeAscii(s[1..]);
      assert s == [s[0]] + s[1..];
    }
  }

  // ---------------------------------------------------------------------
  // Splitting and joining on a separator

  /** `parts.join(sep)`. */
  function Join(parts: seq<string>, sep: char): string
  {
    if |parts| == 0 then ""
    else if |parts| == 1 then parts[0]
    else parts[0] + [sep] + Join(parts[1..], sep)
  }

  /** `s.split(sep)`: at least one part, the text between separators. */
  function Split(s: string, sep: char): (r: seq<string>)
    ensures |r| >= 1
    decreases |s|
  {
    if s == [] then [""]
    else if s[0] == sep then [""] + Split(s[1..], sep)
    else
      var r := Split(s[1..], sep);
      [[s[0]] + r[0]] + r[1..]
  }

  predicate Free(s: string, sep: char) {
    forall i :: 0 <= i < |s| ==> s[i] != sep
  }

  lemma {:induction false} SplitFree(p: string, rest: string, sep: char)
    requires Free(p, sep)
    ensures Split(p + rest, sep) == [p + Split(rest, sep)[0]] + Split(rest, sep)[1..]
  {
    if p != [] {
      var t := p + rest;
      assert t[0] == p[0] && t[0] != sep;
      assert t[1..] == p[1..] + rest;
      SplitFree(p[1..], rest, sep);
      var r := Split(t[1..], sep);
      assert Split(t, sep) == [[p[0]] + r[0]] + r[1..];
      assert [p[0]] + (p[1..] + Split(rest, sep)[0]) == p + Split(rest, sep)[0];
    } else {
      var r := Split(rest, sep);
      assert p + rest == rest && p + r[0] == r[0];
      assert r == [r[0]] + r[1..];
    }
  }

  lemma {:induction false} SplitJoin(parts: seq<string>, sep: char)
    requires |parts| >= 1
    requires forall k :: 0 <= k < |parts| ==> Free(parts[k], sep)
    ensures Split(Join(parts, sep), sep) == parts
  {
    if |parts| == 1 {
      SplitFree(parts[0], "", sep);
      assert parts[0] + "" == parts[0];
      assert Split("", sep) == [""];
      assert parts == [parts[0]];
    } else {
      var rest := Join(parts[1..], sep);
      SplitJoin(parts[1..], sep);
      assert ([sep] + rest)[0] == sep && ([sep] + rest)[1..] == rest;
      assert Split([sep] + rest, sep) == [""] + parts[1..];
      assert Join(parts, sep) == parts[0] + ([sep] + rest);
      SplitFree(parts[0], [sep] + rest, sep);
      var q := Split([sep] + rest, sep);
      assert q[0] == "" && q[1..] == parts[1..];
      assert parts[0] + q[0] == parts[0];
      assert parts == [parts[0]] + parts[1..];
    }
  }

  // ---------------------------------------------------------------------
  // The whole name/value list

  function SerializePair(p: (string, string)): string
  {
    Serialize(p.0) + "=" + Serialize(p.1)
  }

  /** `params.toString()`. */
  function SerializePairs(pairs: seq<(string, string)>): string
  {
    Join(PairTexts(pairs), '&')
  }

  /** The `name=value` text of every pair, in order. */
  function PairTexts(pairs: seq<(string, string)>): (r: seq<string>)
    ensures |r| == |pairs|
  {
    seq(|pairs|, k requires 0 <= k < |pairs| => SerializePair(pairs[k]))
  }

  lemma PairTextsCons(pairs: seq<(string, string)>)
    requires pairs != []
    ensures PairTexts(pairs) == [SerializePair(pairs[0])] + PairTexts(pairs[1..])
  {
  }

  /** The standard parser's split of one `name=value` part at its first `=`. */
  function ParsePart(part: string): (seq<Byte>, seq<Byte>)
  {
    var parts := Split(part, '=');
    (PercentDecode(parts[0]), PercentDecode(Join(parts[1..], '=')))
  }

  /** The form parser, on bytes: empty parts are skipped. */
  function ParsePairs(query: string): seq<(seq<Byte>, seq<Byte>)>
  {
    ParseParts(Split(query, '&'))
  }

  function ParseParts(parts: seq<string>): seq<(seq<Byte>, seq<Byte>)>
  {
    if parts == [] then []
    else if parts[0] == "" then ParseParts(parts[1..])
    else [ParsePart(parts[0])] + ParseParts(parts[1..])
  }

  function EncodedPairs(pairs: seq<(string, string)>): seq<(seq<Byte>, seq<Byte>)>
  {
    seq(|pairs|, k requires 0 <= k < |pairs| => (Utf8String(pairs[k].0), Utf8String(pairs[k].1)))
  }

  lemma FreeSerialized(s: string, sep: char)
    requires sep == '&' || sep == '='
    ensures Free(Serialize(s), sep)
  {
    SerializeChars(s);
  }

  lemma ParsePairPart(p: (string, string))
    ensures SerializePair(p) != ""
    ensures ParsePart(SerializePair(p)) == (Utf8String(p.0), Utf8String(p.1))
  {
    var n, v := Serialize(p.0), Serialize(p.1);
    FreeSerialized(p.0, '=');
    FreeSerialized(p.1, '=');
    SplitJoin([n, v], '=');
    assert SerializePair(p) == Join([n, v], '=');
    assert Split(SerializePair(p), '=')[1..] == [v];
    PercentDecodeSerialize(Utf8String(p.0));
    PercentDecodeSerialize(Utf8String(p.1));
  }

  lemma {:induction false} ParsePartsSerialized(pairs: seq<(string, string)>)
    ensures ParseParts(PairTexts(pairs))
      == EncodedPairs(pairs)
  {
    if pairs != [] {
      PairTextsCons(pairs);
      ParsePairPart(pairs[0]);
      ParsePartsSerialized(pairs[1..]);
      var parts := PairTexts(pairs);
      assert parts[0] != "" && parts[1..] == PairTexts(pairs[1..]);
      assert EncodedPairs(pairs) == [(Utf8String(pairs[0].0), Utf8String(pairs[0].1))] + EncodedPairs(pairs[1..]);
    }
  }

  /**
   * Parsing the serialized list gives back, in order, the UTF-8 bytes of
   * every name and value.
   */
  lemma ParseSerialize(pairs: seq<(string, string)>)
    requires pairs != []
    ensures ParsePairs(SerializePairs(pairs)) == EncodedPairs(pairs)
  {
    var parts := PairTexts(pairs);
    forall k | 0 <= k < |parts| ensures Free(parts[k], '&') {
      FreeSerialized(pairs[k].0, '&');
      FreeSerialized(pairs[k].1, '&');
    }
    SplitJoin(parts, '&');
    ParsePartsSerialized(pairs);
  }

  /**
   * The whole round trip, for any list of pairs (the empty one included):
   * parsing the serialized list gives one pair per given pair, whose bytes
   * decode to its name and value.
   */
  lemma ParseSerializeDecodes(pairs: seq<(string, string)>)
    ensures |ParsePairs(SerializePairs(pairs))| == |pairs|
    ensures forall k :: 0 <= k < |pairs| ==>
      (DecodeUtf8(ParsePairs(SerializePairs(pairs))[k].0) == Some(pairs[k].0)
       && DecodeUtf8(ParsePairs(SerializePairs(pairs))[k].1) == Some(pairs[k].1))
  {
    if pairs != [] {
      ParseSerialize(pairs);
    }
    var e := EncodedPairs(pairs);
    forall k | 0 <= k < |pairs|
      ensures DecodeUtf8(e[k].0) == Some(pairs[k].0) && DecodeUtf8(e[k].1) == Some(pairs[k].1)
    {
      DecodeUtf8String(pairs[k].0);
      DecodeUtf8String(pairs[k].1);
    }
  }

  lemma SerializeOnePair(p: (string, string))
    ensures SerializePairs([p]) == SerializePair(p)
  {
  }

  lemma SerializeTwoPairs(p: (string, string), q: (string, string))
    ensures SerializePairs([p, q]) == SerializePair(p) + "&" + SerializePair(q)
  {
    var parts := PairTexts([p, q]);
    assert parts == [SerializePair(p), SerializePair(q)];
    assert parts[1..] == [SerializePair(q)];
    assert Join(parts[1..], '&') == SerializePair(q);
  }

  lemma SerializePairsEmpty(pairs: seq<(string, string)>)
    ensures SerializePairs(pairs) == "" <==> pairs == []
  {
    if pairs != [] {
      var parts := PairTexts(pairs);
      assert |parts[0]| > 0;
      if |parts| > 1 {
        assert |Join(parts, '&')| >= |parts[0]|;
      }
    }
  }
}
