/** The UTF-8 character encoding of section 3 of RFC 3629, restricted to the
    Basic Multilingual Plane (a Java `char` is a 16-bit code unit), plus the
    replacement Java's `String.getBytes("UTF-8")` applies to a lone surrogate.
    The decoder covers the one- and two-byte forms only: those are the forms
    the legacy wire protocol carries end to end. */
module Utf8 {
  import opened JavaPrims

  /** A UTF-16 surrogate code unit: not a scalar value on its own. */
  predicate IsSurrogate(c: int) {
    0xD800 <= c <= 0xDFFF
  }

  /** A code unit whose UTF-8 form has one or two bytes. */
  predicate IsShort(c: int) {
    0 <= c < 0x800
  }

  predicate AllShort(units: seq<int>) {
    forall i :: 0 <= i < |units| ==> IsShort(units[i])
  }

  /** Lead byte of a two-byte sequence: bit pattern 110xxxxx. */
  predicate IsTwoByteLead(b: int) {
    0xC0 <= b < 0xE0
  }

  /** Continuation byte: bit pattern 10xxxxxx. */
  predicate IsContinuation(b: int) {
    0x80 <= b < 0xC0
  }

  /** UTF-8 form of a BMP scalar value: 0xxxxxxx, 110yyyyy 10xxxxxx, or
      1110zzzz 10yyyyyy 10xxxxxx. */
  function EncodeScalar(c: int): (b: seq<int>)
    requires 0 <= c < 0x1_0000 && !IsSurrogate(c)
    ensures 1 <= |b| <= 3 && AllOctets(b)
    ensures |b| == 1 <==> c < 0x80
    ensures |b| == 2 <==> 0x80 <= c < 0x800
    ensures |b| == 2 ==> IsTwoByteLead(b[0]) && IsContinuation(b[1])
    ensures |b| == 3 ==> 0xE0 <= b[0] < 0xF0 && IsContinuation(b[1]) && IsContinuation(b[2])
  {
    if c < 0x80 then [c]
    else if c < 0x800 then [0xC0 + c / 64, 0x80 + c % 64]
    else [0xE0 + c / 4096, 0x80 + (c / 64) % 64, 0x80 + c % 64]
  }

  /** The bytes Java's `getBytes("UTF-8")` yields for a one-character string:
      a lone surrogate cannot be encoded and is replaced by '?'. */
  function JavaEncodeChar(c: int): (b: seq<int>)
    requires 0 <= c < 0x1_0000
    ensures 1 <= |b| <= 3 && AllOctets(b)
    ensures IsSurrogate(c) ==> b == [0x3F]
    ensures !IsSurrogate(c) ==> b == EncodeScalar(c)
  {
    if IsSurrogate(c) then ['?' as int] else EncodeScalar(c)
  }

  function EncodeAll(units: seq<int>): (b: seq<int>)
    requires AllShort(units)
    ensures AllOctets(b)
  {
    if |units| == 0 then [] else EncodeScalar(units[0]) + EncodeAll(units[1..])
  }

  /** Decodes a byte string made of one- and two-byte UTF-8 sequences; `None`
      for anything else, including the overlong leads 0xC0 and 0xC1. */
  function Decode(b: seq<int>): (r: Option<seq<int>>)
    decreases |b|
  {
    if |b| == 0 then Some([])
    else if 0 <= b[0] < 0x80 then
      match Decode(b[1..])
      case Some(us) => Some([b[0]] + us)
      case None => None
    else if 0xC2 <= b[0] < 0xE0 && |b| >= 2 && IsContinuation(b[1]) then
      match Decode(b[2..])
      case Some(us) => Some([(b[0] - 0xC0) * 64 + (b[1] - 0x80)] + us)
      case None => None
    else None
  }

  lemma EncodeAllAppend(a: seq<int>, b: seq<int>)
    requires AllShort(a) && AllShort(b)
    ensures AllShort(a + b)
    ensures EncodeAll(a + b) == EncodeAll(a) + EncodeAll(b)
  {
    if |a| > 0 {
      assert (a + b)[0] == a[0] && (a + b)[1..] == a[1..] + b;
      EncodeAllAppend(a[1..], b);
      assert EncodeAll(a + b) == EncodeScalar(a[0]) + EncodeAll(a[1..] + b);
    } else {
      assert a + b == b;
    }
  }

  /** Decoding undoes encoding for every string of one- and two-byte characters. */
  lemma {:induction false} DecodeEncode(units: seq<int>)
    requires AllShort(units)
    ensures Decode(EncodeAll(units)) == Some(units)
  {
    if |units| > 0 {
      var c := units[0];
      var e := EncodeScalar(c);
      var b := EncodeAll(units);
      assert b == e + EncodeAll(units[1..]);
      DecodeEncode(units[1..]);
      assert b[|e|..] == EncodeAll(units[1..]);
      if c >= 0x80 {
        assert b[0] == 0xC0 + c / 64 && b[1] == 0x80 + c % 64;
        assert (b[0] - 0xC0) * 64 + (b[1] - 0x80) == c;
      }
      assert units == [c] + units[1..];
    }
  }

  /** A two-byte sequence the decoder accepts is the encoding of the unit it
      decodes to. */
  lemma TwoByteUnit(lead: int, trail: int)
    requires 0xC2 <= lead < 0xE0 && IsContinuation(trail)
    ensures var c := (lead - 0xC0) * 64 + (trail - 0x80);
            0x80 <= c < 0x800 && EncodeScalar(c) == [lead, trail]
  {
    var c := (lead - 0xC0) * 64 + (trail - 0x80);
    assert c / 64 == lead - 0xC0 && c % 64 == trail - 0x80;
  }

  /** Encoding a unit followed by more units. */
  lemma EncodeAllCons(c: int, rest: seq<int>)
    requires IsShort(c) && AllShort(rest)
    ensures AllShort([c] + rest)
    ensures EncodeAll([c] + rest) == EncodeScalar(c) + EncodeAll(rest)
  {
    assert ([c] + rest)[1..] == rest;
  }

  /** Whatever decodes was produced by the encoder: the decoder accepts
      exactly the encodings of strings of one- and two-byte characters. */
  lemma {:induction false} EncodeDecode(b: seq<int>)
    requires Decode(b).Some?
    ensures AllShort(Decode(b).value)
    ensures EncodeAll(Decode(b).value) == b
    decreases |b|
  {
    if |b| > 0 {
      if 0 <= b[0] < 0x80 {
        var rest := Decode(b[1..]).value;
        EncodeDecode(b[1..]);
        EncodeAllCons(b[0], rest);
        assert b == [b[0]] + b[1..];
      } else {
        var rest := Decode(b[2..]).value;
        EncodeDecode(b[2..]);
        TwoByteUnit(b[0], b[1]);
        EncodeAllCons((b[0] - 0xC0) * 64 + (b[1] - 0x80), rest);
        assert b == [b[0], b[1]] + b[2..];
      }
    }
  }
}
