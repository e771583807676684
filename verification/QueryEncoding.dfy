/**
 * The query-string encoding of `URI.description` (Sources/Transport/URI.swift):
 * each query item's name and value are percent-encoded with the character set
 * `afURLQueryAllowed`, rendered as `name=value`, and the items are joined with
 * `&`.
 *
 * A character outside the set is encoded as its UTF-8 bytes, each written `%HH`
 * with upper-case hexadecimal digits (section 2.1 of RFC 3986).
 */
module QueryEncoding {
  import opened Wrappers
  import opened Ascii

  newtype uint8 = x: int | 0 <= x < 256

  /**
   * Foundation's `urlQueryAllowed`: the characters a query may hold literally
   * under section 3.4 of RFC 3986 (unreserved, sub-delimiters, ":", "@", "/", "?").
   */
  predicate UrlQueryAllowed(c: char) {
    || IsLetter(c) || IsDigit(c)
    || c == '-' || c == '.' || c == '_' || c == '~'
    || IsSubDelimiter(c)
    || c == ':' || c == '@' || c == '/' || c == '?'
  }

  /** The sub-delimiters of RFC 3986: "!$&'()*+,;=". */
  predicate IsSubDelimiter(c: char) {
    c == '!' || c == '$' || c == '&' || c == '\'' || c == '(' || c == ')'
    || c == '*' || c == '+' || c == ',' || c == ';' || c == '='
  }

  /** The general delimiters to encode, ":#[]@": all but "?" and "/", which a query may carry literally. */
  predicate IsGeneralDelimiterToEncode(c: char) {
    c == ':' || c == '#' || c == '[' || c == ']' || c == '@'
  }

  /**
   * `afURLQueryAllowed`: `urlQueryAllowed` minus the general delimiters above
   * and all sub-delimiters. What is left, spelled out: letters, digits, "-._~",
   * "/" and "?".
   */
  predicate Allowed(c: char)
    ensures Allowed(c) <==> IsLetter(c) || IsDigit(c) || c in "-._~/?"
  {
    UrlQueryAllowed(c) && !IsGeneralDelimiterToEncode(c) && !IsSubDelimiter(c)
  }

  /** The UTF-8 encoding of one Unicode scalar value. */
  function Utf8(c: char): (bytes: seq<uint8>)
    ensures 1 <= |bytes| <= 4
    ensures c as int < 128 <==> |bytes| == 1
    ensures c as int < 128 ==> bytes == [c as int as uint8]
    ensures |bytes| > 1 ==> forall i :: 0 <= i < |bytes| ==> bytes[i] >= 128
  {
    var n := c as int;
    if n < 0x80 then [n as uint8]
    else if n < 0x800 then [(0xC0 + n / 64) as uint8, (0x80 + n % 64) as uint8]
    else if n < 0x10000 then [(0xE0 + n / 4096) as uint8, (0x80 + (n / 64) % 64) as uint8, (0x80 + n % 64) as uint8]
    else [(0xF0 + n / 262144) as uint8, (0x80 + (n / 4096) % 64) as uint8, (0x80 + (n / 64) % 64) as uint8, (0x80 + n % 64) as uint8]
  }

  /** The UTF-8 encoding of a string. */
  function Utf8String(s: string): seq<uint8> {
    if s == [] then [] else Utf8(s[0]) + Utf8String(s[1..])
  }

  predicate IsHex(c: char) { IsDigit(c) || 'A' <= c <= 'F' || 'a' <= c <= 'f' }

  function HexValue(c: char): (d: nat)
    requires IsHex(c)
    ensures d < 16
  {
    if IsDigit(c) then c as int - '0' as int
    else if 'A' <= c <= 'F' then c as int - 'A' as int + 10
    else c as int - 'a' as int + 10
  }

  /** The hexadecimal digits written on output: '0'..'9' and 'A'..'F'. */
  predicate IsUpperHex(c: char) { IsDigit(c) || 'A' <= c <= 'F' }

  /** The upper-case hexadecimal digit for `d`; `HexValue` reads it back. */
  function HexDigit(d: nat): (c: char)
    requires d < 16
    ensures IsUpperHex(c) && IsHex(c) && Allowed(c) && HexValue(c) == d
  {
    if d < 10 then ('0' as int + d) as char else ('A' as int + d - 10) as char
  }

  /** One byte as `%HH`. */
  function Triple(b: uint8): (r: string)
    ensures |r| == 3 && r[0] == '%' && IsHex(r[1]) && IsHex(r[2]) && Allowed(r[1]) && Allowed(r[2])
    ensures IsUpperHex(r[1]) && IsUpperHex(r[2])
    ensures HexValue(r[1]) * 16 + HexValue(r[2]) == b as int
  {
    ['%', HexDigit(b as int / 16), HexDigit(b as int % 16)]
  }

  function Triples(bytes: seq<uint8>): (r: string)
    ensures forall i :: 0 <= i < |r| ==> Allowed(r[i]) || r[i] == '%'
  {
    if bytes == [] then [] else Triple(bytes[0]) + Triples(bytes[1..])
  }

  function EncodeChar(c: char): (r: string)
    ensures forall i :: 0 <= i < |r| ==> Allowed(r[i]) || r[i] == '%'
  {
    if Allowed(c) then [c] else Triples(Utf8(c))
  }

  /** `addingPercentEncoding(withAllowedCharacters: .afURLQueryAllowed)`. */
  function PercentEncode(s: string): (r: string)
    ensures forall i :: 0 <= i < |r| ==> Allowed(r[i]) || r[i] == '%'
  {
    if s == [] then [] else EncodeChar(s[0]) + PercentEncode(s[1..])
  }

  /**
   * Percent-decoding (section 2.1 of RFC 3986) to bytes: `%HH` is one byte, any
   * other ASCII character stands for itself; a stray `%` or a non-ASCII
   * character makes the input malformed.
   */
  function PercentDecode(s: string): Option<seq<uint8>> {
    if s == [] then Some([])
    else if s[0] == '%' then
      if |s| >= 3 && IsHex(s[1]) && IsHex(s[2]) then
        Prepend([(HexValue(s[1]) * 16 + HexValue(s[2])) as uint8], PercentDecode(s[3..]))
      else None
    else if s[0] as int < 128 then Prepend([s[0] as int as uint8], PercentDecode(s[1..]))
    else None
  }

  function Prepend(bytes: seq<uint8>, rest: Option<seq<uint8>>): Option<seq<uint8>> {
    match rest
    case None => None
    case Some(r) => Some(bytes + r)
  }

  /** The shape of an encoded string: allowed characters and `%HH` triples only. */
  predicate WellEncoded(s: string)
    decreases |s|
  {
    if s == [] then true
    else if s[0] == '%' then |s| >= 3 && IsHex(s[1]) && IsHex(s[2]) && WellEncoded(s[3..])
    else Allowed(s[0]) && WellEncoded(s[1..])
  }

  // ---------------------------------------------------------------------------
  // Round trip

  lemma {:induction false} DecodeTriples(bytes: seq<uint8>, rest: string)
    ensures PercentDecode(Triples(bytes) + rest) == Prepend(bytes, PercentDecode(rest))
  {
    if bytes == [] {
      assert Triples(bytes) + rest == rest;
      match PercentDecode(rest) {
        case None =>
        case Some(r) => assert bytes + r == r;
      }
    } else {
      var t := Triple(bytes[0]);
      var s := Triples(bytes) + rest;
      assert s == t + (Triples(bytes[1..]) + rest);
      assert s[0] == '%' && s[1] == t[1] && s[2] == t[2];
      assert s[3..] == Triples(bytes[1..]) + rest;
      DecodeTriples(bytes[1..], rest);
      assert [bytes[0]] + bytes[1..] == bytes;
      match PercentDecode(rest) {
        case None =>
        case Some(r) => assert [bytes[0]] + (bytes[1..] + r) == bytes + r;
      }
    }
  }

  lemma DecodeEncodedChar(c: char, rest: string)
    ensures PercentDecode(EncodeChar(c) + rest) == Prepend(Utf8(c), PercentDecode(rest))
  {
    if Allowed(c) {
      assert (EncodeChar(c) + rest)[1..] == rest;
    } else {
      DecodeTriples(Utf8(c), rest);
    }
  }

  /** Percent-decoding the encoding of `s` gives back the UTF-8 bytes of `s`. */
  lemma {:induction false} EncodeDecodeRoundTrip(s: string)
    ensures PercentDecode(PercentEncode(s)) == Some(Utf8String(s))
  {
    if s != [] {
      EncodeDecodeRoundTrip(s[1..]);
      DecodeEncodedChar(s[0], PercentEncode(s[1..]));
    }
  }

  /** For ASCII input the bytes recovered are the input's characters. */
  lemma {:induction false} AsciiUtf8(s: string)
    requires forall i :: 0 <= i < |s| ==> s[i] as int < 128
    ensures |Utf8String(s)| == |s|
    ensures forall i :: 0 <= i < |s| ==> Utf8String(s)[i] as int == s[i] as int
  {
    if s != [] {
      AsciiUtf8(s[1..]);
      assert Utf8String(s) == [s[0] as int as uint8] + Utf8String(s[1..]);
    }
  }

  lemma {:induction false} TriplesWellEncoded(bytes: seq<uint8>, rest: string)
    requires WellEncoded(rest)
    ensures WellEncoded(Triples(bytes) + rest)
  {
    if bytes != [] {
      TriplesWellEncoded(bytes[1..], rest);
      var s := Triples(bytes) + rest;
      assert s == Triple(bytes[0]) + (Triples(bytes[1..]) + rest);
      assert s[3..] == Triples(bytes[1..]) + rest;
    } else {
      assert Triples(bytes) + rest == rest;
    }
  }

  /** The encoder's output is made of allowed characters and `%HH` triples only. */
  lemma {:induction false} EncodedIsWellFormed(s: string)
    ensures WellEncoded(PercentEncode(s))
  {
    if s != [] {
      EncodedIsWellFormed(s[1..]);
      var c := s[0];
      if Allowed(c) {
        assert (EncodeChar(c) + PercentEncode(s[1..]))[1..] == PercentEncode(s[1..]);
      } else {
        TriplesWellEncoded(Utf8(c), PercentEncode(s[1..]));
      }
    }
  }

  /** Allowed characters are kept literally. */
  lemma KeepsAllowed(c: char)
    requires IsLetter(c) || IsDigit(c) || c in "-._~/?"
    ensures PercentEncode([c]) == [c]
  {
    assert [c][1..] == [];
  }

  /** Every reserved character other than "/" and "?" becomes `%` and its two hex digits. */
  lemma EncodesDelimiters(c: char)
    requires c in ":#[]@!$&'()*+,;="
    ensures var r := PercentEncode([c]);
      |r| == 3 && r[0] == '%' && HexValue(r[1]) * 16 + HexValue(r[2]) == c as int
  {
    assert [c][1..] == [];
    var b := Utf8(c);
    assert b == [c as int as uint8];
    assert Triples(b) == Triple(b[0]) + Triples([]);
  }

  lemma AmpersandAndEquals()
    ensures PercentEncode("&") == "%26" && PercentEncode("=") == "%3D"
  {
    EncodesDelimiters('&');
    EncodesDelimiters('=');
  }

  // ---------------------------------------------------------------------------
  // Items and the joined query

  datatype QueryItem = QueryItem(name: string, value: Option<string>)

  /**
   * One item as `name=value`; an item without a value is `name=`. The rendering
   * holds no "&", and its only "=" is the one right after the encoded name.
   */
  function RenderItem(item: QueryItem): (r: string)
    ensures '&' !in r
    ensures forall i :: 0 <= i < |r| ==> (r[i] == '=' <==> i == |PercentEncode(item.name)|)
  {
    PercentEncode(item.name) + "=" + match item.value { case Some(v) => PercentEncode(v) case None => "" }
  }

  /**
   * `joined(separator:)`. Joining no pieces gives "", one piece gives that
   * piece, and joining pieces that do not hold the separator puts exactly one
   * separator between each two of them.
   */
  function Join(pieces: seq<string>, sep: char): (r: string)
    ensures pieces == [] ==> r == ""
    ensures |pieces| == 1 ==> r == pieces[0]
    ensures |pieces| >= 1 && (forall i :: 0 <= i < |pieces| ==> sep !in pieces[i])
      ==> CountChar(r, sep) == |pieces| - 1
  {
    if pieces == [] then ""
    else if |pieces| == 1 then
      CountCharAbsent(pieces[0], sep);
      pieces[0]
    else
      var rest := Join(pieces[1..], sep);
      JoinCount(pieces[0], sep, rest);
      pieces[0] + [sep] + rest
  }

  lemma JoinCount(p: string, sep: char, rest: string)
    ensures sep !in p ==> CountChar(p + [sep] + rest, sep) == CountChar(rest, sep) + 1
  {
    if sep !in p {
      CountCharAbsent(p, sep);
      CountCharAppend(p + [sep], rest, sep);
      CountCharAppend(p, [sep], sep);
    }
  }

  function RenderItems(items: seq<QueryItem>): (r: seq<string>)
    ensures |r| == |items|
    ensures forall i :: 0 <= i < |items| ==> r[i] == RenderItem(items[i])
  {
    if items == [] then [] else [RenderItem(items[0])] + RenderItems(items[1..])
  }

  /**
   * The query string `description` renders: the items joined with `&`. A
   * non-empty item list gives back, when split on "&", the rendering of each
   * item in order; no items give "".
   */
  function EncodedQuery(items: seq<QueryItem>): (r: string)
    ensures items == [] ==> r == ""
    ensures |items| >= 1 ==> Split(r, '&') == RenderItems(items)
  {
    var pieces := RenderItems(items);
    if items == [] then Join(pieces, '&')
    else
      SplitJoin(pieces, '&');
      Join(pieces, '&')
  }

  /** The first position of `c` in `s`. */
  function IndexOf(s: string, c: char): (r: Option<nat>)
    ensures r.None? <==> c !in s
    ensures r.Some? ==> r.value < |s| && s[r.value] == c && c !in s[..r.value]
  {
    if s == [] then None
    else if s[0] == c then Some(0)
    else match IndexOf(s[1..], c)
      case None => None
      case Some(i) => assert s[..i + 1] == [s[0]] + s[1..][..i]; Some(i + 1)
  }

  /** Splits `s` at every `sep`; a string without `sep` is one piece. */
  function Split(s: string, sep: char): (r: seq<string>)
    ensures |r| >= 1
    decreases |s|
  {
    match IndexOf(s, sep)
    case None => [s]
    case Some(i) => [s[..i]] + Split(s[i + 1..], sep)
  }

  function CountChar(s: string, c: char): nat {
    if s == [] then 0 else (if s[0] == c then 1 else 0) + CountChar(s[1..], c)
  }

  lemma {:induction false} CountCharAppend(a: string, b: string, c: char)
    ensures CountChar(a + b, c) == CountChar(a, c) + CountChar(b, c)
  {
    if a == [] {
      assert a + b == b;
    } else {
      assert (a + b)[1..] == a[1..] + b;
      CountCharAppend(a[1..], b, c);
    }
  }

  lemma {:induction false} CountCharAbsent(s: string, c: char)
    ensures c !in s ==> CountChar(s, c) == 0
  {
    if s != [] && c !in s {
      CountCharAbsent(s[1..], c);
    }
  }

  /** Splitting a join gives back the pieces, when no piece holds the separator. */
  lemma {:induction false} SplitJoin(pieces: seq<string>, sep: char)
    requires |pieces| >= 1
    requires forall i :: 0 <= i < |pieces| ==> sep !in pieces[i]
    ensures Split(Join(pieces, sep), sep) == pieces
  {
    if |pieces| > 1 {
      var p, rest := pieces[0], Join(pieces[1..], sep);
      var s := p + [sep] + rest;
      assert s[..|p|] == p;
      assert s[|p|] == sep;
      assert IndexOf(s, sep) == Some(|p|);
      assert s[|p| + 1..] == rest;
      SplitJoin(pieces[1..], sep);
    } else {
      assert IndexOf(pieces[0], sep) == None;
    }
  }

  lemma RenderedItemShape(item: QueryItem)
    ensures '&' !in RenderItem(item)
    ensures CountChar(RenderItem(item), '=') == 1
    ensures Split(RenderItem(item), '=') == [PercentEncode(item.name), RenderedValue(item)]
  {
    var n, v := PercentEncode(item.name), RenderedValue(item);
    assert RenderItem(item) == n + "=" + v;
    assert '=' !in n && '=' !in v;
    assert '&' !in n && '&' !in v;
    CountCharAbsent(n, '=');
    CountCharAbsent(v, '=');
    CountCharAppend(n + "=", v, '=');
    CountCharAppend(n, "=", '=');
    SplitJoin([n, v], '=');
    assert Join([n, v], '=') == n + "=" + v;
  }

  function RenderedValue(item: QueryItem): string {
    match item.value
    case Some(v) => PercentEncode(v)
    case None => ""
  }

  /**
   * Because `&` and `=` are always encoded inside names and values, the joined
   * query splits on `&` into one piece per item, each piece holds exactly one
   * `=`, and splitting a piece on `=` gives the encoded name and value, which
   * decode to the UTF-8 bytes of the original name and value.
   */
  lemma QuerySplitsIntoItems(items: seq<QueryItem>)
    requires |items| >= 1
    ensures var pieces := Split(EncodedQuery(items), '&');
      && |pieces| == |items|
      && (forall i :: 0 <= i < |items| ==> CountChar(pieces[i], '=') == 1)
      && (forall i :: 0 <= i < |items| ==> Split(pieces[i], '=') == [PercentEncode(items[i].name), RenderedValue(items[i])])
  {
    var rendered := RenderItems(items);
    forall i | 0 <= i < |items| ensures '&' !in rendered[i] {
      RenderedItemShape(items[i]);
    }
    SplitJoin(rendered, '&');
    forall i | 0 <= i < |items|
      ensures CountChar(rendered[i], '=') == 1
      ensures Split(rendered[i], '=') == [PercentEncode(items[i].name), RenderedValue(items[i])]
    {
      RenderedItemShape(items[i]);
    }
  }

  /** The value half of a piece decodes to the value's bytes; no value decodes like an empty one. */
  lemma ValueRoundTrip(item: QueryItem)
    ensures PercentDecode(PercentEncode(item.name)) == Some(Utf8String(item.name))
    ensures PercentDecode(RenderedValue(item)) == Some(match item.value { case Some(v) => Utf8String(v) case None => [] })
  {
    EncodeDecodeRoundTrip(item.name);
    match item.value {
      case Some(v) => EncodeDecodeRoundTrip(v);
      case None =>
    }
  }

  /** An item without a value renders as `name=`, exactly as one with an empty value. */
  lemma NoValueRendersEmpty(name: string)
    ensures RenderItem(QueryItem(name, None)) == PercentEncode(name) + "="
    ensures RenderItem(QueryItem(name, None)) == RenderItem(QueryItem(name, Some("")))
  {
  }
}
