/** Percent-encoding as PHP's `rawurlencode`/`rawurldecode` do it (section 2.1 of
    RFC 3986), and the href encoding of PROPFIND responses built from it. */
module UrlCoding {
  import opened PhpStrings

  /** The bytes `rawurlencode` leaves as they are: the unreserved set of section 2.3 of RFC 3986. */
  predicate Unreserved(c: Byte) {
    ('A' <= c <= 'Z') || ('a' <= c <= 'z') || ('0' <= c <= '9') || c == '-' || c == '_' || c == '.' || c == '~'
  }

  /** Upper-case hexadecimal digit, as `rawurlencode` writes them. */
  function HexDigit(d: nat): (c: Byte)
    requires d < 16
    ensures c != '%' && c != '/'
    ensures c != '?'
  {
    if d < 10 then ('0' as int + d) as char else ('A' as int + d - 10) as char
  }

  predicate IsHex(c: Byte) {
    ('0' <= c <= '9') || ('A' <= c <= 'F') || ('a' <= c <= 'f')
  }

  /** The value of a hexadecimal digit of either case. */
  function HexValue(c: Byte): (v: nat)
    requires IsHex(c)
    ensures v < 16
  {
    if '0' <= c <= '9' then c as int - '0' as int
    else if 'A' <= c <= 'F' then c as int - 'A' as int + 10
    else c as int - 'a' as int + 10
  }

  lemma HexRoundTrip(d: nat)
    requires d < 16
    ensures IsHex(HexDigit(d)) && HexValue(HexDigit(d)) == d
  {
  }

  /** `%` and the two upper-case hexadecimal digits of one byte. */
  function PercentByte(c: Byte): Str {
    ['%', HexDigit(c as int / 16), HexDigit(c as int % 16)]
  }

  function EncodeByte(c: Byte): Str {
    if Unreserved(c) then [c] else PercentByte(c)
  }

  /** `rawurlencode`: every byte outside the unreserved set becomes `%XX`. */
  function RawUrlEncode(s: Str): (r: Str)
    ensures |r| >= |s|
    ensures '/' !in r && '?' !in r
    decreases |s|
  {
    if s == [] then [] else EncodeByte(s[0]) + RawUrlEncode(s[1..])
  }

  /** `rawurldecode`: `%` followed by two hexadecimal digits of either case becomes
      that byte; every other byte, a stray `%` included, is kept. */
  function RawUrlDecode(s: Str): (r: Str)
    ensures |r| <= |s|
    ensures '%' !in s ==> r == s
    decreases |s|
  {
    if s == [] then []
    else if |s| >= 3 && s[0] == '%' && IsHex(s[1]) && IsHex(s[2]) then
      [(HexValue(s[1]) * 16 + HexValue(s[2])) as char] + RawUrlDecode(s[3..])
    else [s[0]] + RawUrlDecode(s[1..])
  }

  /** Decoding reads one encoded byte back. */
  lemma DecodeEncodedByte(c: Byte, t: Str)
    ensures RawUrlDecode(EncodeByte(c) + t) == [c] + RawUrlDecode(t)
  {
    if Unreserved(c) {
      var e := [c] + t;
      assert e[1..] == t;
    } else {
      var e := PercentByte(c) + t;
      HexRoundTrip(c as int / 16);
      HexRoundTrip(c as int % 16);
      assert e[3..] == t;
    }
  }

  /** Decoding undoes `rawurlencode`. */
  lemma {:induction false} RawUrlRoundTrip(s: Str)
    ensures RawUrlDecode(RawUrlEncode(s)) == s
    decreases |s|
  {
    if s != [] {
      RawUrlRoundTrip(s[1..]);
      DecodeEncodedByte(s[0], RawUrlEncode(s[1..]));
      assert s == [s[0]] + s[1..];
    }
  }

  /** A prefix without `%` passes through decoding unchanged. */
  lemma {:induction false} DecodePlainPrefix(b: Str, e: Str)
    requires '%' !in b
    ensures RawUrlDecode(b + e) == b + RawUrlDecode(e)
    decreases |b|
  {
    if b != [] {
      assert (b + e)[0] == b[0];
      assert (b + e)[1..] == b[1..] + e;
      DecodePlainPrefix(b[1..], e);
    } else {
      assert b + e == e;
    }
  }

  /** The path part of a PROPFIND href: `str_replace('%2F', '/', rawurlencode($sub))`. */
  function EncodePath(sub: Str): Str {
    ReplaceAll(RawUrlEncode(sub), "%2F", "/")
  }

  /** Reference definition of the href path encoding: byte by byte, slashes kept,
      every other byte as `rawurlencode` writes it. */
  function EncodeSegments(s: Str): Str
    decreases |s|
  {
    if s == [] then [] else (if s[0] == '/' then "/" else EncodeByte(s[0])) + EncodeSegments(s[1..])
  }

  /** A prefix without `%` cannot start an occurrence of "%2F" inside itself. */
  lemma {:induction false} ReplaceAfterPlain(x: Str, t: Str)
    requires '%' !in x
    ensures ReplaceAll(x + t, "%2F", "/") == x + ReplaceAll(t, "%2F", "/")
    decreases |x|
  {
    if x != [] {
      var e := x + t;
      assert e[0] == x[0] && e[0] != '%';
      assert e[1..] == x[1..] + t;
      assert !StartsWith(e, "%2F");
      assert ReplaceAll(e, "%2F", "/") == [x[0]] + ReplaceAll(x[1..] + t, "%2F", "/");
      ReplaceAfterPlain(x[1..], t);
      assert x == [x[0]] + x[1..];
    } else {
      assert x + t == t;
    }
  }

  /** An escape other than "%2F" is passed over by the replacement. */
  lemma EscapeKept(c: Byte, t: Str)
    requires !Unreserved(c) && c != '/'
    ensures ReplaceAll(PercentByte(c) + t, "%2F", "/") == PercentByte(c) + ReplaceAll(t, "%2F", "/")
  {
    var p := PercentByte(c);
    var e := p + t;
    assert c as int / 16 != 2 || c as int % 16 != 15;
    HexRoundTrip(c as int / 16);
    HexRoundTrip(c as int % 16);
    assert p[1] != '2' || p[2] != 'F';
    assert !StartsWith(e, "%2F");
    assert e[1..] == p[1..] + t;
    ReplaceAfterPlain(p[1..], t);
  }

  /** The replacement after one encoded byte: an encoded slash goes back to "/",
      anything else is kept. */
  lemma EncodeStep(c: Byte, t: Str)
    ensures ReplaceAll(EncodeByte(c) + t, "%2F", "/") == (if c == '/' then "/" else EncodeByte(c)) + ReplaceAll(t, "%2F", "/")
  {
    if c == '/' {
      var e := EncodeByte(c) + t;
      assert EncodeByte(c) == "%2F";
      assert StartsWith(e, "%2F");
      assert e[3..] == t;
    } else if Unreserved(c) {
      ReplaceAfterPlain([c], t);
    } else {
      EscapeKept(c, t);
    }
  }

  /** Replacing "%2F" after `rawurlencode` touches exactly the encoded slashes:
      no other "%2F" can appear, because a literal `%` is itself encoded as "%25". */
  lemma {:induction false} EncodePathBytewise(s: Str)
    ensures EncodePath(s) == EncodeSegments(s)
    decreases |s|
  {
    if s != [] {
      var t := RawUrlEncode(s[1..]);
      assert RawUrlEncode(s) == EncodeByte(s[0]) + t;
      EncodePathBytewise(s[1..]);
      EncodeStep(s[0], t);
    }
  }

  lemma {:induction false} DecodeSegments(s: Str)
    ensures RawUrlDecode(EncodeSegments(s)) == s
    decreases |s|
  {
    if s != [] {
      var c := s[0];
      var t := EncodeSegments(s[1..]);
      DecodeSegments(s[1..]);
      if c == '/' {
        var e := [c] + t;
        assert e[1..] == t;
      } else {
        DecodeEncodedByte(c, t);
      }
      assert s == [c] + s[1..];
    }
  }

  /** A PROPFIND href: the base URI followed by the encoded path. Percent-decoding
      what follows the base URI gives back the path. */
  function Href(baseUri: Str, sub: Str): (r: Str)
    ensures StartsWith(r, baseUri)
    ensures RawUrlDecode(r[|baseUri|..]) == sub
  {
    EncodePathBytewise(sub);
    DecodeSegments(sub);
    var r := baseUri + EncodePath(sub);
    assert r[|baseUri|..] == EncodePath(sub);
    r
  }

  /** Every byte of an encoded path is unreserved, a slash, or part of a `%XX` escape. */
  lemma {:induction false} EncodedAlphabet(s: Str)
    ensures forall j :: 0 <= j < |EncodeSegments(s)| ==>
      Unreserved(EncodeSegments(s)[j]) || EncodeSegments(s)[j] == '/' || EncodeSegments(s)[j] == '%' || IsHex(EncodeSegments(s)[j])
    decreases |s|
  {
    if s != [] {
      EncodedAlphabet(s[1..]);
      HexRoundTrip(s[0] as int / 16);
      HexRoundTrip(s[0] as int % 16);
    }
  }
}
