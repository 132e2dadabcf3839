/**
 * UTF-8 (RFC 3629) over Unicode scalar values: the octets `encodeURIComponent`
 * escapes, and the strict decoder a reader of the URI applies to them.
 */
module Utf8 {
  import opened Wrappers

  type byte = x: int | 0 <= x < 256

  predicate IsContinuation(b: byte) {
    0x80 <= b < 0xC0
  }

  /** The shortest UTF-8 form of one scalar value. */
  function EncodeChar(c: char): (bs: seq<byte>)
    ensures 1 <= |bs| <= 4
    ensures |bs| == 1 <==> c as int < 0x80
    ensures forall k :: 1 <= k < |bs| ==> IsContinuation(bs[k])
  {
    var cp := c as int;
    if cp < 0x80 then [cp]
    else if cp < 0x800 then [0xC0 + cp / 0x40, 0x80 + cp % 0x40]
    else if cp < 0x10000 then [0xE0 + cp / 0x1000, 0x80 + cp / 0x40 % 0x40, 0x80 + cp % 0x40]
    else [0xF0 + cp / 0x40000, 0x80 + cp / 0x1000 % 0x40, 0x80 + cp / 0x40 % 0x40, 0x80 + cp % 0x40]
  }

  /** The UTF-8 form of a string: the forms of its scalar values, in order. */
  function Encode(s: string): (bs: seq<byte>)
    ensures |s| <= |bs| <= 4 * |s|
  {
    if s == [] then [] else EncodeChar(s[0]) + Encode(s[1..])
  }

  /**
   * The scalar value that `bs` starts with and the number of octets it
   * takes, or `None` when `bs` does not start with a well-formed sequence
   * (a stray continuation octet, a truncated sequence, an overlong form, a
   * surrogate or a value above U+10FFFF).
   */
  function DecodeFirst(bs: seq<byte>): (r: Option<(char, nat)>)
    requires |bs| > 0
    ensures r.Some? ==> 1 <= r.value.1 <= 4 && r.value.1 <= |bs|
  {
    var b0: int := bs[0];
    if b0 < 0x80 then Some((b0 as char, 1))
    else if 0xC2 <= b0 < 0xE0 then
      if |bs| >= 2 && IsContinuation(bs[1]) then
        Some((Value2(b0, bs[1]) as char, 2))
      else None
    else if 0xE0 <= b0 < 0xF0 then
      if |bs| >= 3 && IsContinuation(bs[1]) && IsContinuation(bs[2]) then
        var cp := Value3(b0, bs[1], bs[2]);
        if 0x800 <= cp && !(0xD800 <= cp < 0xE000) then Some((cp as char, 3)) else None
      else None
    else if 0xF0 <= b0 < 0xF5 then
      if |bs| >= 4 && IsContinuation(bs[1]) && IsContinuation(bs[2]) && IsContinuation(bs[3]) then
        var cp := Value4(b0, bs[1], bs[2], bs[3]);
        if 0x10000 <= cp < 0x110000 then Some((cp as char, 4)) else None
      else None
    else None
  }

  /** The value carried by a two-octet sequence. */
  function Value2(b0: int, b1: int): (cp: int)
    requires 0xC2 <= b0 < 0xE0 && 0x80 <= b1 < 0xC0
    ensures 0x80 <= cp < 0x800
  {
    (b0 - 0xC0) * 0x40 + (b1 - 0x80)
  }

  /** The value carried by a three-octet sequence. */
  function Value3(b0: int, b1: int, b2: int): (cp: int)
    requires 0xE0 <= b0 < 0xF0 && 0x80 <= b1 < 0xC0 && 0x80 <= b2 < 0xC0
    ensures 0 <= cp < 0x10000
  {
    (b0 - 0xE0) * 0x1000 + (b1 - 0x80) * 0x40 + (b2 - 0x80)
  }

  /** The value carried by a four-octet sequence. */
  function Value4(b0: int, b1: int, b2: int, b3: int): (cp: int)
    requires 0xF0 <= b0 < 0xF5 && 0x80 <= b1 < 0xC0 && 0x80 <= b2 < 0xC0 && 0x80 <= b3 < 0xC0
    ensures 0 <= cp < 0x140000
  {
    (b0 - 0xF0) * 0x40000 + (b1 - 0x80) * 0x1000 + (b2 - 0x80) * 0x40 + (b3 - 0x80)
  }

  /** The string `bs` is the UTF-8 form of, or `None` when `bs` is not well-formed UTF-8. */
  function Decode(bs: seq<byte>): Option<string>
    decreases |bs|
  {
    if bs == [] then Some([])
    else
      match DecodeFirst(bs)
      case None => None
      case Some((c, n)) =>
        match Decode(bs[n..])
        case None => None
        case Some(rest) => Some([c] + rest)
  }

  /** The octets of a two-, three- or four-octet form carry the value back. */
  lemma SplitValue(cp: int)
    requires 0x80 <= cp < 0x110000
    ensures cp < 0x800 ==> Value2(0xC0 + cp / 0x40, 0x80 + cp % 0x40) == cp
    ensures 0x800 <= cp < 0x10000 ==> Value3(0xE0 + cp / 0x1000, 0x80 + cp / 0x40 % 0x40, 0x80 + cp % 0x40) == cp
    ensures 0x10000 <= cp ==> Value4(0xF0 + cp / 0x40000, 0x80 + cp / 0x1000 % 0x40, 0x80 + cp / 0x40 % 0x40, 0x80 + cp % 0x40) == cp
  {
    var q1, r1 := cp / 0x40, cp % 0x40;
    var q2, r2 := q1 / 0x40, q1 % 0x40;
    var q3, r3 := q2 / 0x40, q2 % 0x40;
    assert cp == q1 * 0x40 + r1 && q1 == q2 * 0x40 + r2 && q2 == q3 * 0x40 + r3;
    assert cp / 0x1000 == q2;
    assert cp / 0x40000 == q3;
  }

  lemma DecodeFirstOfEncodeChar(c: char, rest: seq<byte>)
    ensures DecodeFirst(EncodeChar(c) + rest) == Some((c, |EncodeChar(c)|))
  {
    var cp := c as int;
    if cp >= 0x80 {
      SplitValue(cp);
    }
  }

  /** Decoding the UTF-8 form of a string gives the string back. */
  lemma {:induction false} DecodeEncode(s: string)
    ensures Decode(Encode(s)) == Some(s)
  {
    if s != [] {
      var e := EncodeChar(s[0]);
      DecodeFirstOfEncodeChar(s[0], Encode(s[1..]));
      assert (e + Encode(s[1..]))[|e|..] == Encode(s[1..]);
      DecodeEncode(s[1..]);
      assert [s[0]] + s[1..] == s;
    }
  }

  /** A value built from octets splits back into the same octets. */
  lemma JoinValue(b0: int, b1: int, b2: int, b3: int)
    requires 0x80 <= b1 < 0xC0 && 0x80 <= b2 < 0xC0 && 0x80 <= b3 < 0xC0
    ensures 0xC2 <= b0 < 0xE0 ==> var cp := Value2(b0, b1); cp / 0x40 == b0 - 0xC0 && cp % 0x40 == b1 - 0x80
    ensures 0xE0 <= b0 < 0xF0 ==> var cp := Value3(b0, b1, b2);
      cp / 0x1000 == b0 - 0xE0 && cp / 0x40 % 0x40 == b1 - 0x80 && cp % 0x40 == b2 - 0x80
    ensures 0xF0 <= b0 < 0xF5 ==> var cp := Value4(b0, b1, b2, b3);
      cp / 0x40000 == b0 - 0xF0 && cp / 0x1000 % 0x40 == b1 - 0x80 && cp / 0x40 % 0x40 == b2 - 0x80 && cp % 0x40 == b3 - 0x80
  {
    if 0xE0 <= b0 < 0xF0 {
      var cp := Value3(b0, b1, b2);
      assert cp / 0x40 == (b0 - 0xE0) * 0x40 + (b1 - 0x80);
    } else if 0xF0 <= b0 < 0xF5 {
      var cp := Value4(b0, b1, b2, b3);
      assert cp / 0x40 == ((b0 - 0xF0) * 0x40 + (b1 - 0x80)) * 0x40 + (b2 - 0x80);
      assert cp / 0x1000 == (b0 - 0xF0) * 0x40 + (b1 - 0x80);
    }
  }

  /** A well-formed sequence at the start of `bs` is exactly the UTF-8 form of the value decoded. */
  lemma EncodeCharOfDecodeFirst(bs: seq<byte>)
    requires |bs| > 0 && DecodeFirst(bs).Some?
    ensures EncodeChar(DecodeFirst(bs).value.0) == bs[..DecodeFirst(bs).value.1]
  {
    var n := DecodeFirst(bs).value.1;
    if n == 2 {
      JoinValue(bs[0], bs[1], 0x80, 0x80);
    } else if n == 3 {
      JoinValue(bs[0], bs[1], bs[2], 0x80);
    } else if n == 4 {
      JoinValue(bs[0], bs[1], bs[2], bs[3]);
    }
  }

  /** Whatever decodes is the UTF-8 form of what it decodes to: the decoder accepts no other spelling. */
  lemma {:induction false} EncodeDecode(bs: seq<byte>)
    requires Decode(bs).Some?
    ensures Encode(Decode(bs).value) == bs
    decreases |bs|
  {
    if bs != [] {
      var c, n, rest := DecodeStep(bs);
      EncodeDecode(bs[n..]);
      EncodeCons(c, rest);
      assert bs[..n] + bs[n..] == bs;
    }
  }

  lemma EncodeCons(c: char, rest: string)
    ensures Encode([c] + rest) == EncodeChar(c) + Encode(rest)
  {
    assert ([c] + rest)[1..] == rest;
  }

  /**
   * A well-formed `bs` is the UTF-8 form of a first value `c`, `n` octets
   * long, followed by a well-formed rest.
   */
  lemma DecodeStep(bs: seq<byte>) returns (c: char, n: nat, rest: string)
    requires bs != [] && Decode(bs).Some?
    ensures 1 <= n <= |bs| && EncodeChar(c) == bs[..n]
    ensures Decode(bs[n..]) == Some(rest) && Decode(bs).value == [c] + rest
  {
    c, n := DecodeFirst(bs).value.0, DecodeFirst(bs).value.1;
    rest := Decode(bs[n..]).value;
    EncodeCharOfDecodeFirst(bs);
  }
}
