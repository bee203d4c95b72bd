/**
 Percent-encoding as JavaScript's `encodeURIComponent` and
 `decodeURIComponent` do it (sections 19.2.6.4 and 19.2.6.5 of
 ECMA-262): a character outside the unreserved set is written as the
 `%XX` escapes of its UTF-8 bytes, with upper-case hex digits; decoding
 reads the escapes back and refuses (a `URIError` in JavaScript, `None`
 here) a malformed escape or a byte sequence that is not UTF-8.

 Characters are Unicode scalar values, so the lone surrogates on which
 `encodeURIComponent` throws do not occur.
 */
module Percent {
  import opened Strings

  type Byte = b: int | 0 <= b < 256

  /** The characters `encodeURIComponent` leaves as they are. */
  predicate IsUnreserved(c: char) {
    ('A' <= c <= 'Z') || ('a' <= c <= 'z') || ('0' <= c <= '9')
    || c == '-' || c == '_' || c == '.' || c == '!' || c == '~' || c == '*' || c == '\'' || c == '(' || c == ')'
  }

  /** A digit of an escape as `encodeURIComponent` writes it: 0-9 and A-F. */
  function HexDigit(d: nat): (c: char)
    requires d < 16
    ensures ('0' <= c <= '9') || ('A' <= c <= 'F')
  {
    if d < 10 then ('0' as int + d) as char else ('A' as int + d - 10) as char
  }

  /** The value of a hex digit of either case; `None` for any other character. */
  function HexValue(c: char): (v: Option<nat>)
    ensures v.Some? ==> v.value < 16
  {
    if '0' <= c <= '9' then Some(c as int - '0' as int)
    else if 'A' <= c <= 'F' then Some(c as int - 'A' as int + 10)
    else if 'a' <= c <= 'f' then Some(c as int - 'a' as int + 10)
    else None
  }

  lemma HexValueOfDigit(d: nat)
    requires d < 16
    ensures HexValue(HexDigit(d)) == Some(d)
  {
  }

  /** The UTF-8 encoding of one scalar value (section 3.9 of the Unicode Standard). */
  function Utf8(c: char): (bs: seq<Byte>)
    ensures 1 <= |bs| <= 4
    ensures |bs| == 1 <==> c as int < 0x80
    ensures |bs| == 1 ==> bs[0] == c as int
    ensures forall i :: 1 <= i < |bs| ==> 0x80 <= bs[i] < 0xC0
  {
    var v := c as int;
    if v < 0x80 then [v]
    else if v < 0x800 then [0xC0 + v / 64, 0x80 + v % 64]
    else if v < 0x10000 then [0xE0 + v / 64 / 64, 0x80 + v / 64 % 64, 0x80 + v % 64]
    else [0xF0 + v / 64 / 64 / 64, 0x80 + v / 64 / 64 % 64, 0x80 + v / 64 % 64, 0x80 + v % 64]
  }

  function EscapeByte(b: Byte): string {
    ['%', HexDigit(b / 16), HexDigit(b % 16)]
  }

  function EscapeBytes(bs: seq<Byte>): (s: string)
    ensures |s| == 3 * |bs|
    decreases |bs|
  {
    if |bs| == 0 then "" else EscapeByte(bs[0]) + EscapeBytes(bs[1..])
  }

  function EncodeChar(c: char): string {
    if IsUnreserved(c) then [c] else EscapeBytes(Utf8(c))
  }

  /** The characters that can occur in the output of `encodeURIComponent`. */
  predicate IsEncodedChar(c: char) {
    IsUnreserved(c) || c == '%'
  }

  /** `encodeURIComponent(s)`. */
  function EncodeURIComponent(s: string): (r: string)
    ensures forall i :: 0 <= i < |r| ==> IsEncodedChar(r[i])
    ensures |r| >= |s|
    decreases |s|
  {
    if |s| == 0 then
      ""
    else
      var head := EncodeChar(s[0]);
      var tail := EncodeURIComponent(s[1..]);
      EscapesAreEncodedChars(Utf8(s[0]));
      assert forall i :: 0 <= i < |head| ==> IsEncodedChar(head[i]);
      head + tail
  }

  lemma {:induction false} EscapesAreEncodedChars(bs: seq<Byte>)
    ensures forall i :: 0 <= i < |EscapeBytes(bs)| ==> IsEncodedChar(EscapeBytes(bs)[i])
    decreases |bs|
  {
    if |bs| > 0 {
      EscapesAreEncodedChars(bs[1..]);
      var e := EscapeByte(bs[0]);
      assert forall i :: 0 <= i < 3 ==> IsEncodedChar(e[i]);
    }
  }

  // ---------------------------------------------------------------------
  // decodeURIComponent
  // ---------------------------------------------------------------------

  /** The byte of the escape `%XX` at the start of `s`, if it starts with one. */
  function ReadEscape(s: string): Option<Byte> {
    if |s| >= 3 && s[0] == '%' && HexValue(s[1]).Some? && HexValue(s[2]).Some? then
      Some(16 * HexValue(s[1]).value + HexValue(s[2]).value)
    else
      None
  }

  /**
   The length of the UTF-8 sequence a first byte announces: the number of
   its leading one bits, except that 0 leading ones means a single byte.
   0 stands for a byte no sequence can start with (one leading one bit, or
   more than four).
   */
  function SequenceLength(b: Byte): (n: nat)
    ensures n <= 4 && n != 1 ==> b >= 0x80
    ensures n == 1 <==> b < 0x80
  {
    if b < 0x80 then 1
    else if b < 0xC0 then 0
    else if b < 0xE0 then 2
    else if b < 0xF0 then 3
    else if b < 0xF8 then 4
    else 0
  }

  /** Reads `count` escapes of continuation bytes (`10xxxxxx`) from the start of `s`. */
  function ReadContinuations(s: string, count: nat): (r: Option<seq<Byte>>)
    ensures r.Some? ==> |r.value| == count && 3 * count <= |s|
    ensures r.Some? ==> forall i :: 0 <= i < count ==> 0x80 <= r.value[i] < 0xC0
    decreases count
  {
    if count == 0 then
      Some([])
    else
      match ReadEscape(s)
      case None => None
      case Some(b) =>
        if b < 0x80 || b >= 0xC0 then
          None
        else
          match ReadContinuations(s[3..], count - 1)
          case None => None
          case Some(more) => Some([b] + more)
  }

  /**
   The scalar value a multi-byte sequence encodes, or `None` when the
   sequence is overlong, encodes a surrogate or lies above U+10FFFF.
   */
  function Utf8Value(bs: seq<Byte>): Option<char>
    requires 2 <= |bs| <= 4
    requires forall i :: 1 <= i < |bs| ==> 0x80 <= bs[i] < 0xC0
  {
    var lead: int := bs[0];
    var low := seq(|bs| - 1, i requires 0 <= i < |bs| - 1 => bs[i + 1] as int - 0x80);
    if |bs| == 2 then
      var v := (lead % 32) * 64 + low[0];
      if v < 0x80 then None else Some(v as char)
    else if |bs| == 3 then
      var v := ((lead % 16) * 64 + low[0]) * 64 + low[1];
      if v < 0x800 || (0xD800 <= v < 0xE000) then None else Some(v as char)
    else
      var v := (((lead % 8) * 64 + low[0]) * 64 + low[1]) * 64 + low[2];
      if v < 0x10000 || v >= 0x110000 then None else Some(v as char)
  }

  function Prepend(c: char, r: Option<string>): (p: Option<string>)
    ensures p.Some? <==> r.Some?
    ensures p.Some? ==> p.value == [c] + r.value
  {
    match r
    case None => None
    case Some(t) => Some([c] + t)
  }

  /** `decodeURIComponent(s)`; `None` where JavaScript throws a `URIError`. */
  function DecodeURIComponent(s: string): (r: Option<string>)
    ensures r.Some? ==> |r.value| <= |s|
    decreases |s|
  {
    if |s| == 0 then
      Some("")
    else if s[0] != '%' then
      Prepend(s[0], DecodeURIComponent(s[1..]))
    else
      match ReadEscape(s)
      case None => None
      case Some(b) =>
        var n := SequenceLength(b);
        if n == 0 then
          None
        else if n == 1 then
          Prepend(b as char, DecodeURIComponent(s[3..]))
        else
          match ReadContinuations(s[3..], n - 1)
          case None => None
          case Some(more) =>
            match Utf8Value([b] + more)
            case None => None
            case Some(c) => Prepend(c, DecodeURIComponent(s[3 + 3 * (n - 1)..]))
  }

  /** Text without `%` decodes to itself. */
  lemma {:induction false} DecodePlain(s: string)
    requires '%' !in s
    ensures DecodeURIComponent(s) == Some(s)
    decreases |s|
  {
    if |s| > 0 {
      assert s == [s[0]] + s[1..];
      DecodePlain(s[1..]);
    }
  }

  // ---------------------------------------------------------------------
  // The round trip
  // ---------------------------------------------------------------------

  lemma ReadEscapeOf(b: Byte, rest: string)
    ensures ReadEscape(EscapeByte(b) + rest) == Some(b)
  {
    HexValueOfDigit(b / 16);
    HexValueOfDigit(b % 16);
  }

  lemma {:induction false} ReadContinuationsOf(bs: seq<Byte>, rest: string)
    requires forall i :: 0 <= i < |bs| ==> 0x80 <= bs[i] < 0xC0
    ensures ReadContinuations(EscapeBytes(bs) + rest, |bs|) == Some(bs)
    decreases |bs|
  {
    if |bs| > 0 {
      var s := EscapeBytes(bs) + rest;
      assert s == EscapeByte(bs[0]) + (EscapeBytes(bs[1..]) + rest);
      ReadEscapeOf(bs[0], EscapeBytes(bs[1..]) + rest);
      assert s[3..] == EscapeBytes(bs[1..]) + rest;
      ReadContinuationsOf(bs[1..], rest);
      assert [bs[0]] + bs[1..] == bs;
    }
  }

  /** The first byte of a character's encoding announces the length of the encoding. */
  lemma SequenceLengthOfUtf8(c: char)
    ensures SequenceLength(Utf8(c)[0]) == |Utf8(c)|
  {
  }

  /** Decoding the UTF-8 encoding of a character gives the character back. */
  lemma Utf8ValueOfUtf8(c: char)
    requires c as int >= 0x80
    ensures Utf8Value(Utf8(c)) == Some(c)
  {
    var v := c as int;
    if v < 0x800 {
      Utf8ValueTwo(c);
    } else if v < 0x10000 {
      Utf8ValueThree(c);
    } else {
      Utf8ValueFour(c);
    }
  }

  lemma Utf8ValueTwo(c: char)
    requires 0x80 <= c as int < 0x800
    ensures Utf8Value(Utf8(c)) == Some(c)
  {
    var v := c as int;
    assert v == (v / 64) * 64 + v % 64;
    assert Utf8(c)[0] % 32 == v / 64;
  }

  lemma Utf8ValueThree(c: char)
    requires 0x800 <= c as int < 0x10000
    ensures Utf8Value(Utf8(c)) == Some(c)
  {
    var v := c as int;
    assert v == (v / 64) * 64 + v % 64;
    assert v / 64 == (v / 64 / 64) * 64 + v / 64 % 64;
    assert Utf8(c)[0] % 16 == v / 64 / 64;
  }

  lemma Utf8ValueFour(c: char)
    requires 0x10000 <= c as int
    ensures Utf8Value(Utf8(c)) == Some(c)
  {
    var v := c as int;
    assert v == (v / 64) * 64 + v % 64;
    assert v / 64 == (v / 64 / 64) * 64 + v / 64 % 64;
    assert v / 64 / 64 == (v / 64 / 64 / 64) * 64 + v / 64 / 64 % 64;
    assert Utf8(c)[0] % 8 == v / 64 / 64 / 64;
  }

  /** The escapes of a character not in the unreserved set decode to the character. */
  lemma DecodeEscapedChar(c: char, rest: string)
    requires !IsUnreserved(c)
    ensures DecodeURIComponent(EscapeBytes(Utf8(c)) + rest) == Prepend(c, DecodeURIComponent(rest))
  {
    var bs := Utf8(c);
    var tail := EscapeBytes(bs[1..]) + rest;
    var s := EscapeByte(bs[0]) + tail;
    assert EscapeBytes(bs) + rest == s;
    ReadEscapeOf(bs[0], tail);
    SequenceLengthOfUtf8(c);
    if |bs| == 1 {
      assert tail == rest;
      DecodeEscapedByte(bs[0], rest);
    } else {
      Utf8ValueOfUtf8(c);
      assert [bs[0]] + bs[1..] == bs;
      DecodeEscapedSequence(bs[0], bs[1..], c, rest);
    }
  }

  lemma DecodeEscapedByte(b: Byte, rest: string)
    requires b < 0x80
    ensures DecodeURIComponent(EscapeByte(b) + rest) == Prepend(b as char, DecodeURIComponent(rest))
  {
    var s := EscapeByte(b) + rest;
    ReadEscapeOf(b, rest);
    assert s[0] == '%';
    assert s[3..] == rest;
  }

  /** A lead byte and its continuation bytes, escaped, decode to the character they encode. */
  lemma DecodeEscapedSequence(b: Byte, more: seq<Byte>, c: char, rest: string)
    requires |more| > 0 && SequenceLength(b) == |more| + 1
    requires forall i :: 0 <= i < |more| ==> 0x80 <= more[i] < 0xC0
    requires Utf8Value([b] + more) == Some(c)
    ensures DecodeURIComponent(EscapeByte(b) + (EscapeBytes(more) + rest)) == Prepend(c, DecodeURIComponent(rest))
  {
    var tail := EscapeBytes(more) + rest;
    var s := EscapeByte(b) + tail;
    ReadEscapeOf(b, tail);
    assert s[3..] == tail;
    ReadContinuationsOf(more, rest);
    DecodeMultiByteStep(s, b, more, c);
    assert s[3 + 3 * |more|..] == rest;
  }

  /** One step of `decodeURIComponent` over an escaped lead byte and its continuations. */
  lemma DecodeMultiByteStep(s: string, b: Byte, more: seq<Byte>, c: char)
    requires |s| >= 3 && s[0] == '%' && ReadEscape(s) == Some(b)
    requires |more| > 0 && SequenceLength(b) == |more| + 1
    requires ReadContinuations(s[3..], |more|) == Some(more)
    requires Utf8Value([b] + more) == Some(c)
    ensures 3 + 3 * |more| <= |s|
    ensures DecodeURIComponent(s) == Prepend(c, DecodeURIComponent(s[3 + 3 * |more|..]))
  {
  }

  lemma DecodeEncodedChar(c: char, rest: string)
    ensures DecodeURIComponent(EncodeChar(c) + rest) == Prepend(c, DecodeURIComponent(rest))
  {
    if IsUnreserved(c) {
      assert ([c] + rest)[1..] == rest;
    } else {
      DecodeEscapedChar(c, rest);
    }
  }

  /** `decodeURIComponent(encodeURIComponent(s)) === s` for every string. */
  lemma {:induction false} DecodeEncode(s: string)
    ensures DecodeURIComponent(EncodeURIComponent(s)) == Some(s)
    decreases |s|
  {
    if |s| > 0 {
      DecodeEncodedChar(s[0], EncodeURIComponent(s[1..]));
      DecodeEncode(s[1..]);
      assert [s[0]] + s[1..] == s;
    }
  }
}
