/**
 * `encodeURIComponent` on well-formed Unicode strings: percent-encoding
 * (section 2.1 of RFC 3986) of every UTF-8 octet of every scalar value
 * outside the unescaped set, and the matching percent-decoder.
 */
module PercentEncoding {
  import opened Wrappers
  import Utf8

  /** The characters `encodeURIComponent` leaves as they are: letters, digits and `- _ . ! ~ * ' ( )`. */
  predicate IsUnescaped(c: char) {
    || ('A' <= c <= 'Z') || ('a' <= c <= 'z') || ('0' <= c <= '9')
    || c == '-' || c == '_' || c == '.' || c == '!' || c == '~' || c == '*' || c == '\'' || c == '(' || c == ')'
  }

  /** A hexadecimal digit in either case, as a decoder accepts it. */
  predicate IsHexDigit(c: char) {
    ('0' <= c <= '9') || ('A' <= c <= 'F') || ('a' <= c <= 'f')
  }

  function HexValue(c: char): (n: int)
    requires IsHexDigit(c)
    ensures 0 <= n < 16
  {
    if '0' <= c <= '9' then c as int - '0' as int
    else if 'A' <= c <= 'F' then c as int - 'A' as int + 10
    else c as int - 'a' as int + 10
  }

  /** The upper-case hexadecimal digit of a value below 16. */
  function HexDigit(n: int): (c: char)
    requires 0 <= n < 16
    ensures IsHexDigit(c) && HexValue(c) == n
    ensures IsUnescaped(c) && !('a' <= c <= 'z')
  {
    if n < 10 then ('0' as int + n) as char else ('A' as int + n - 10) as char
  }

  /** `%XY`, with `XY` the octet in two upper-case hexadecimal digits. */
  function EscapeOctet(b: Utf8.byte): string {
    ['%', HexDigit(b / 16), HexDigit(b % 16)]
  }

  function EscapeOctets(bs: seq<Utf8.byte>): (s: string)
    ensures |s| == 3 * |bs|
    ensures forall i :: 0 <= i < |s| ==> IsUnescaped(s[i]) || s[i] == '%'
  {
    if bs == [] then [] else EscapeOctet(bs[0]) + EscapeOctets(bs[1..])
  }

  /** The encoding of one scalar value: itself when unescaped, else its UTF-8 octets escaped. */
  function EncodeChar(c: char): string {
    if IsUnescaped(c) then [c] else EscapeOctets(Utf8.EncodeChar(c))
  }

  /**
   * `encodeURIComponent(s)`. The result holds only unescaped characters and
   * `%`, so none of the delimiters `&`, `=`, `?`, `#` or a space.
   */
  function EncodeURIComponent(s: string): (r: string)
    ensures forall i :: 0 <= i < |r| ==> IsUnescaped(r[i]) || r[i] == '%'
  {
    if s == [] then [] else EncodeChar(s[0]) + EncodeURIComponent(s[1..])
  }

  /** `Some(bs + t)` when `r` is `Some(t)`. */
  function Prepend(bs: seq<Utf8.byte>, r: Option<seq<Utf8.byte>>): Option<seq<Utf8.byte>> {
    match r
    case None => None
    case Some(t) => Some(bs + t)
  }

  /**
   * Percent-decoding of a URI component into octets: `%XY` is the octet
   * `XY`, any other ASCII character stands for itself. A `%` not followed by
   * two hexadecimal digits, or a non-ASCII character, is `None`.
   */
  function PercentDecode(s: string): Option<seq<Utf8.byte>>
    decreases |s|
  {
    if s == [] then Some([])
    else if s[0] == '%' then
      if |s| >= 3 && IsHexDigit(s[1]) && IsHexDigit(s[2]) then
        Prepend([HexValue(s[1]) * 16 + HexValue(s[2])], PercentDecode(s[3..]))
      else None
    else if s[0] as int < 0x80 then
      Prepend([s[0] as int], PercentDecode(s[1..]))
    else None
  }

  /** The text a component stands for: its octets read as UTF-8. */
  function DecodeComponent(s: string): Option<string> {
    match PercentDecode(s)
    case None => None
    case Some(bs) => Utf8.Decode(bs)
  }

  lemma {:induction false} PercentDecodeEscapeOctets(bs: seq<Utf8.byte>, rest: string)
    ensures PercentDecode(EscapeOctets(bs) + rest) == Prepend(bs, PercentDecode(rest))
  {
    if bs != [] {
      var t := EscapeOctets(bs[1..]) + rest;
      assert EscapeOctets(bs) + rest == EscapeOctet(bs[0]) + t;
      PercentDecodeEscapeOctet(bs[0], t);
      PercentDecodeEscapeOctets(bs[1..], rest);
      PrependTwice([bs[0]], bs[1..], PercentDecode(rest));
      assert [bs[0]] + bs[1..] == bs;
    } else {
      assert EscapeOctets(bs) + rest == rest;
      if PercentDecode(rest).Some? {
        assert bs + PercentDecode(rest).value == PercentDecode(rest).value;
      }
    }
  }

  /** `%XY` decodes to the octet `XY`, in front of whatever follows decodes to. */
  lemma PercentDecodeEscapeOctet(b: Utf8.byte, t: string)
    ensures PercentDecode(EscapeOctet(b) + t) == Prepend([b], PercentDecode(t))
  {
    var u := EscapeOctet(b) + t;
    assert u[0] == '%' && u[1] == HexDigit(b / 16) && u[2] == HexDigit(b % 16);
    assert u[3..] == t;
  }

  lemma PrependTwice(a: seq<Utf8.byte>, b: seq<Utf8.byte>, r: Option<seq<Utf8.byte>>)
    ensures Prepend(a, Prepend(b, r)) == Prepend(a + b, r)
  {
    if r.Some? {
      assert a + (b + r.value) == (a + b) + r.value;
    }
  }

  lemma PercentDecodeEncodeChar(c: char, rest: string)
    ensures PercentDecode(EncodeChar(c) + rest) == Prepend(Utf8.EncodeChar(c), PercentDecode(rest))
  {
    if IsUnescaped(c) {
      assert ([c] + rest)[1..] == rest;
    } else {
      PercentDecodeEscapeOctets(Utf8.EncodeChar(c), rest);
    }
  }

  /** The encoding percent-decodes to the string's UTF-8 octets. */
  lemma {:induction false} PercentDecodeEncode(s: string)
    ensures PercentDecode(EncodeURIComponent(s)) == Some(Utf8.Encode(s))
  {
    if s != [] {
      PercentDecodeEncodeChar(s[0], EncodeURIComponent(s[1..]));
      PercentDecodeEncode(s[1..]);
    }
  }

  /** Decoding an encoded component gives back exactly the original text. */
  lemma DecodeEncode(s: string)
    ensures DecodeComponent(EncodeURIComponent(s)) == Some(s)
  {
    PercentDecodeEncode(s);
    Utf8.DecodeEncode(s);
  }

  /** Different texts have different encodings. */
  lemma EncodeInjective(a: string, b: string)
    requires EncodeURIComponent(a) == EncodeURIComponent(b)
    ensures a == b
  {
    DecodeEncode(a);
    DecodeEncode(b);
  }

  /** A string of unescaped characters is its own encoding. */
  lemma {:induction false} EncodeUnescaped(s: string)
    requires forall i :: 0 <= i < |s| ==> IsUnescaped(s[i])
    ensures EncodeURIComponent(s) == s
  {
    if s != [] {
      EncodeUnescaped(s[1..]);
      assert [s[0]] + s[1..] == s;
    }
  }

  /** ASCII text without `%` decodes to itself. */
  lemma {:induction false} DecodePlain(s: string)
    requires forall i :: 0 <= i < |s| ==> s[i] as int < 0x80 && s[i] != '%'
    ensures DecodeComponent(s) == Some(s)
  {
    PercentDecodePlain(s);
    Utf8.DecodeEncode(s);
  }

  lemma {:induction false} PercentDecodePlain(s: string)
    requires forall i :: 0 <= i < |s| ==> s[i] as int < 0x80 && s[i] != '%'
    ensures PercentDecode(s) == Some(Utf8.Encode(s))
  {
    if s != [] {
      PercentDecodePlain(s[1..]);
    }
  }
  /** The encoding works character by character: it distributes over concatenation. */
  lemma {:induction false} EncodeConcat(a: string, b: string)
    ensures EncodeURIComponent(a + b) == EncodeURIComponent(a) + EncodeURIComponent(b)
  {
    if a != [] {
      assert (a + b)[1..] == a[1..] + b;
      EncodeConcat(a[1..], b);
    } else {
      assert a + b == b;
    }
  }

  /** The em dash U+2014 is escaped as its three UTF-8 octets. */
  lemma EncodeEmDash()
    ensures EncodeURIComponent("\U{2014}") == "%E2%80%94"
  {
    assert Utf8.EncodeChar('\U{2014}') == [0xE2, 0x80, 0x94];
    assert EscapeOctet(0xE2) == "%E2";
    assert EscapeOctet(0x80) == "%80";
    assert EscapeOctet(0x94) == "%94";
    assert EncodeChar('\U{2014}') == "%E2%80%94";
  }
}
