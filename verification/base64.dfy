/**
 The browser's `btoa` and `atob`. `btoa` writes the base64 encoding of
 section 4 of RFC 4648 (alphabet `A-Z a-z 0-9 + /`, `=` padding) of a
 string whose characters are all at most U+00FF, one byte per character,
 and throws otherwise. `atob` is the WHATWG "forgiving-base64 decode": it
 drops ASCII white space, drops one or two `=` from the end of a text whose
 length is a multiple of four, and then refuses a text whose length leaves
 remainder 1 modulo 4 or that holds any character outside the alphabet.
 Throwing is `None` here.
 */
module Base64 {
  import opened Strings
  import opened Percent

  /** The character of the alphabet standing for the six bits `i`. */
  function SextetChar(i: nat): (c: char)
    requires i < 64
    ensures SextetValue(c) == Some(i)
    ensures c != '=' && !IsAsciiWhitespace(c)
  {
    if i < 26 then ('A' as int + i) as char
    else if i < 52 then ('a' as int + i - 26) as char
    else if i < 62 then ('0' as int + i - 52) as char
    else if i == 62 then '+'
    else '/'
  }

  /** The six bits an alphabet character stands for; `None` for any other character. */
  function SextetValue(c: char): (v: Option<nat>)
    ensures v.Some? ==> v.value < 64
  {
    if 'A' <= c <= 'Z' then Some(c as int - 'A' as int)
    else if 'a' <= c <= 'z' then Some(c as int - 'a' as int + 26)
    else if '0' <= c <= '9' then Some(c as int - '0' as int + 52)
    else if c == '+' then Some(62)
    else if c == '/' then Some(63)
    else None
  }

  /** The white space `atob` ignores: tab, line feed, form feed, carriage return and space. */
  predicate IsAsciiWhitespace(c: char) {
    c == '\t' || c == '\n' || c == '\U{000C}' || c == '\r' || c == ' '
  }

  predicate IsLatin1(s: string) {
    forall i :: 0 <= i < |s| ==> s[i] as int < 256
  }

  function Bytes(s: string): (bs: seq<Byte>)
    requires IsLatin1(s)
    ensures |bs| == |s| && forall i :: 0 <= i < |s| ==> bs[i] == s[i] as int
  {
    seq(|s|, i requires 0 <= i < |s| => s[i] as int)
  }

  /** A byte string as the JavaScript string `atob` returns: one character per byte. */
  function Chars(bs: seq<Byte>): (s: string)
    ensures |s| == |bs| && forall i :: 0 <= i < |bs| ==> s[i] as int == bs[i]
  {
    seq(|bs|, i requires 0 <= i < |bs| => bs[i] as char)
  }

  /** The four characters for three bytes. */
  function Quad(b0: Byte, b1: Byte, b2: Byte): string {
    [SextetChar(b0 / 4), SextetChar((b0 % 4) * 16 + b1 / 16), SextetChar((b1 % 16) * 4 + b2 / 64), SextetChar(b2 % 64)]
  }

  /** The base64 characters of `bs` without the `=` padding. */
  function Unpadded(bs: seq<Byte>): (r: string)
    ensures AllSextets(r)
    ensures |r| % 4 == Tail(bs)
    decreases |bs|
  {
    if |bs| == 0 then
      ""
    else if |bs| == 1 then
      [SextetChar(bs[0] / 4), SextetChar((bs[0] % 4) * 16)]
    else if |bs| == 2 then
      [SextetChar(bs[0] / 4), SextetChar((bs[0] % 4) * 16 + bs[1] / 16), SextetChar((bs[1] % 16) * 4)]
    else
      var rest := Unpadded(bs[3..]);
      TailShift(|bs|);
      FourMore(|rest|, Tail(bs[3..]));
      Quad(bs[0], bs[1], bs[2]) + rest
  }

  function Padding(bs: seq<Byte>): string {
    if |bs| % 3 == 1 then "==" else if |bs| % 3 == 2 then "=" else ""
  }

  /** The base64 encoding of `bs` (section 4 of RFC 4648). */
  function Encode(bs: seq<Byte>): (r: string)
    ensures |r| % 4 == 0
  {
    var u := Unpadded(bs);
    var p := Padding(bs);
    PadToFour(|u|, Tail(bs), |p|);
    u + p
  }

  /** The padding fills the last group of four. */
  lemma PadToFour(n: nat, t: nat, p: nat)
    requires n % 4 == t
    requires (t == 0 && p == 0) || (t == 2 && p == 2) || (t == 3 && p == 1)
    ensures (n + p) % 4 == 0
  {
  }

  /** `btoa(s)`: `None` when some character is above U+00FF. */
  function Btoa(s: string): (r: Option<string>)
    ensures r.Some? <==> IsLatin1(s)
    ensures r.Some? ==> |r.value| % 4 == 0 && |r.value| >= |s|
  {
    if IsLatin1(s) then
      UnpaddedLength(Bytes(s));
      Some(Encode(Bytes(s)))
    else
      None
  }

  /** Three bytes take four characters, one or two trailing bytes two or three: never fewer. */
  lemma {:induction false} UnpaddedLength(bs: seq<Byte>)
    ensures |Unpadded(bs)| >= |bs|
    decreases |bs|
  {
    if |bs| >= 3 {
      UnpaddedLength(bs[3..]);
    }
  }

  /** How many characters the last, short group takes: none, two or three. */
  function Tail(bs: seq<Byte>): nat {
    if |bs| % 3 == 0 then 0 else |bs| % 3 + 1
  }

  lemma TailShift(n: nat)
    requires n >= 3
    ensures (n - 3) % 3 == n % 3
  {
  }

  lemma FourMore(n: nat, r: nat)
    requires n % 4 == r
    ensures (n + 4) % 4 == r
  {
  }

  // ---------------------------------------------------------------------
  // atob
  // ---------------------------------------------------------------------

  function RemoveWhitespace(s: string): (r: string)
    ensures forall i :: 0 <= i < |r| ==> !IsAsciiWhitespace(r[i])
    ensures (forall i :: 0 <= i < |s| ==> !IsAsciiWhitespace(s[i])) ==> r == s
    decreases |s|
  {
    if |s| == 0 then ""
    else if IsAsciiWhitespace(s[0]) then RemoveWhitespace(s[1..])
    else
      assert s == [s[0]] + s[1..];
      [s[0]] + RemoveWhitespace(s[1..])
  }

  /** Drops one or two `=` from the end of a text whose length is a multiple of four. */
  function RemovePadding(t: string): string {
    if |t| % 4 == 0 && EndsWith(t, "==") then t[..|t| - 2]
    else if |t| % 4 == 0 && EndsWith(t, "=") then t[..|t| - 1]
    else t
  }

  predicate AllSextets(t: string) {
    forall i :: 0 <= i < |t| ==> SextetValue(t[i]).Some?
  }

  /** The three bytes four sextets hold. */
  function Group(x0: nat, x1: nat, x2: nat, x3: nat): seq<Byte>
    requires x0 < 64 && x1 < 64 && x2 < 64 && x3 < 64
  {
    [x0 * 4 + x1 / 16, (x1 % 16) * 16 + x2 / 4, (x2 % 4) * 64 + x3]
  }

  function Sextet(t: string, i: nat): (x: nat)
    requires AllSextets(t) && i < |t|
    ensures x < 64
  {
    SextetValue(t[i]).value
  }

  /** The bytes a text of alphabet characters stands for; a short last group gives one or two bytes. */
  function DecodeSextets(t: string): (bs: seq<Byte>)
    requires AllSextets(t) && |t| % 4 != 1
    decreases |t|
  {
    if |t| == 0 then
      []
    else if |t| == 2 then
      Group(Sextet(t, 0), Sextet(t, 1), 0, 0)[..1]
    else if |t| == 3 then
      Group(Sextet(t, 0), Sextet(t, 1), Sextet(t, 2), 0)[..2]
    else
      Group(Sextet(t, 0), Sextet(t, 1), Sextet(t, 2), Sextet(t, 3)) + DecodeSextets(t[4..])
  }

  /** `atob(s)`: `None` where the browser throws an `InvalidCharacterError`. */
  function Atob(s: string): (r: Option<string>)
    ensures r.Some? ==> IsLatin1(r.value)
  {
    var t := RemovePadding(RemoveWhitespace(s));
    if |t| % 4 == 1 || !AllSextets(t) then None else Some(Chars(DecodeSextets(t)))
  }

  // ---------------------------------------------------------------------
  // The round trip
  // ---------------------------------------------------------------------

  /** The bits of three bytes, regrouped in sixes and back in eights, are the three bytes. */
  lemma QuadBits(b0: Byte, b1: Byte, b2: Byte)
    ensures (b0 / 4) * 4 + ((b0 % 4) * 16 + b1 / 16) / 16 == b0
    ensures (((b0 % 4) * 16 + b1 / 16) % 16) * 16 + ((b1 % 16) * 4 + b2 / 64) / 4 == b1
    ensures (((b1 % 16) * 4 + b2 / 64) % 4) * 64 + b2 % 64 == b2
  {
  }

  lemma GroupOfQuad(b0: Byte, b1: Byte, b2: Byte)
    ensures Group(b0 / 4, (b0 % 4) * 16 + b1 / 16, (b1 % 16) * 4 + b2 / 64, b2 % 64) == [b0, b1, b2]
  {
    QuadBits(b0, b1, b2);
  }

  lemma AllSextetsAppend(a: string, b: string)
    requires AllSextets(a) && AllSextets(b)
    ensures AllSextets(a + b)
  {
    assert forall i :: 0 <= i < |a + b| ==> (a + b)[i] == if i < |a| then a[i] else b[i - |a|];
  }

  lemma QuadSextets(b0: Byte, b1: Byte, b2: Byte)
    ensures AllSextets(Quad(b0, b1, b2))
  {
  }

  lemma DecodeSextetsStep(t: string)
    requires AllSextets(t) && |t| >= 4 && |t| % 4 != 1
    ensures AllSextets(t[4..])
    ensures DecodeSextets(t) == Group(Sextet(t, 0), Sextet(t, 1), Sextet(t, 2), Sextet(t, 3)) + DecodeSextets(t[4..])
  {
  }

  /** Four alphabet characters in front of a decodable text decode to their group. */
  lemma DecodeGroup(x0: nat, x1: nat, x2: nat, x3: nat, rest: string)
    requires x0 < 64 && x1 < 64 && x2 < 64 && x3 < 64
    requires AllSextets(rest) && |rest| % 4 != 1
    ensures AllSextets([SextetChar(x0), SextetChar(x1), SextetChar(x2), SextetChar(x3)] + rest)
    ensures DecodeSextets([SextetChar(x0), SextetChar(x1), SextetChar(x2), SextetChar(x3)] + rest)
         == Group(x0, x1, x2, x3) + DecodeSextets(rest)
  {
    var q := [SextetChar(x0), SextetChar(x1), SextetChar(x2), SextetChar(x3)];
    FourSextets(q[0], q[1], q[2], q[3]);
    assert q == [q[0], q[1], q[2], q[3]];
    AllSextetsAppend(q, rest);
    var t := q + rest;
    assert t[4..] == rest;
    FourMore(|rest|, |rest| % 4);
    assert Sextet(t, 0) == x0 by { assert t[0] == SextetChar(x0); }
    assert Sextet(t, 1) == x1 by { assert t[1] == SextetChar(x1); }
    assert Sextet(t, 2) == x2 by { assert t[2] == SextetChar(x2); }
    assert Sextet(t, 3) == x3 by { assert t[3] == SextetChar(x3); }
    DecodeSextetsStep(t);
  }

  lemma FourSextets(c0: char, c1: char, c2: char, c3: char)
    requires SextetValue(c0).Some? && SextetValue(c1).Some? && SextetValue(c2).Some? && SextetValue(c3).Some?
    ensures AllSextets([c0, c1, c2, c3])
  {
  }

  /** The sextets `Quad` writes for three bytes, and the bytes `Group` gives back for them. */
  lemma QuadSplit(b0: Byte, b1: Byte, b2: Byte) returns (x0: nat, x1: nat, x2: nat, x3: nat)
    ensures x0 < 64 && x1 < 64 && x2 < 64 && x3 < 64
    ensures Quad(b0, b1, b2) == [SextetChar(x0), SextetChar(x1), SextetChar(x2), SextetChar(x3)]
    ensures Group(x0, x1, x2, x3) == [b0, b1, b2]
  {
    x0, x1, x2, x3 := b0 / 4, (b0 % 4) * 16 + b1 / 16, (b1 % 16) * 4 + b2 / 64, b2 % 64;
    GroupOfQuad(b0, b1, b2);
  }

  lemma DecodeQuad(b0: Byte, b1: Byte, b2: Byte, rest: string)
    requires AllSextets(rest) && |rest| % 4 != 1
    ensures AllSextets(Quad(b0, b1, b2) + rest)
    ensures DecodeSextets(Quad(b0, b1, b2) + rest) == [b0, b1, b2] + DecodeSextets(rest)
  {
    var x0, x1, x2, x3 := QuadSplit(b0, b1, b2);
    DecodeGroup(x0, x1, x2, x3, rest);
  }

  lemma DecodeOne(b0: Byte)
    ensures DecodeSextets(Unpadded([b0])) == [b0]
  {
    var x0, x1 := b0 / 4, (b0 % 4) * 16;
    var t := Unpadded([b0]);
    assert t == [SextetChar(x0), SextetChar(x1)];
    assert Sextet(t, 0) == x0 && Sextet(t, 1) == x1;
    GroupOfQuad(b0, 0, 0);
  }

  lemma DecodeTwo(b0: Byte, b1: Byte)
    ensures DecodeSextets(Unpadded([b0, b1])) == [b0, b1]
  {
    var x0, x1, x2 := b0 / 4, (b0 % 4) * 16 + b1 / 16, (b1 % 16) * 4;
    var t := Unpadded([b0, b1]);
    assert t == [SextetChar(x0), SextetChar(x1), SextetChar(x2)];
    assert Sextet(t, 0) == x0 && Sextet(t, 1) == x1 && Sextet(t, 2) == x2;
    GroupOfQuad(b0, b1, 0);
  }

  lemma {:induction false} DecodeUnpadded(bs: seq<Byte>)
    ensures DecodeSextets(Unpadded(bs)) == bs
    decreases |bs|
  {
    if |bs| == 1 {
      assert bs == [bs[0]];
      DecodeOne(bs[0]);
    } else if |bs| == 2 {
      assert bs == [bs[0], bs[1]];
      DecodeTwo(bs[0], bs[1]);
    } else if |bs| >= 3 {
      var rest := Unpadded(bs[3..]);
      assert Unpadded(bs) == Quad(bs[0], bs[1], bs[2]) + rest;
      DecodeQuad(bs[0], bs[1], bs[2], rest);
      DecodeUnpadded(bs[3..]);
      assert [bs[0], bs[1], bs[2]] + bs[3..] == bs;
    }
  }

  lemma RemovePaddingOfEncode(bs: seq<Byte>)
    ensures RemovePadding(Encode(bs)) == Unpadded(bs)
  {
    var u, p := Unpadded(bs), Padding(bs);
    assert Encode(bs) == u + p;
    if |bs| % 3 == 1 {
      DropTwo(u, u + p);
    } else if |bs| % 3 == 2 {
      DropOne(u, u + p);
    } else {
      assert u + p == u;
      DropNone(u);
    }
  }

  /** A sextet character is never the padding character. */
  lemma LastIsNotPadding(u: string)
    requires AllSextets(u) && |u| > 0
    ensures u[|u| - 1] != '='
  {
    assert SextetValue(u[|u| - 1]).Some?;
  }

  lemma DropTwo(u: string, e: string)
    requires e == u + "==" && |e| % 4 == 0
    ensures RemovePadding(e) == u
  {
    assert e[|e| - 2..] == "==";
    assert e[..|e| - 2] == u;
  }

  lemma DropOne(u: string, e: string)
    requires e == u + "=" && |e| % 4 == 0 && AllSextets(u)
    ensures RemovePadding(e) == u
  {
    LastIsNotPadding(u);
    assert e[|e| - 2] == u[|u| - 1];
    assert !EndsWith(e, "==");
    assert e[|e| - 1..] == "=";
    assert e[..|e| - 1] == u;
  }

  lemma DropNone(u: string)
    requires |u| % 4 == 0 && AllSextets(u)
    ensures RemovePadding(u) == u
  {
    if |u| > 0 {
      LastIsNotPadding(u);
      assert !EndsWith(u, "=");
      assert !EndsWith(u, "==");
    }
  }

  lemma EncodeHasNoWhitespace(bs: seq<Byte>)
    ensures RemoveWhitespace(Encode(bs)) == Encode(bs)
  {
    var u, p := Unpadded(bs), Padding(bs);
    assert forall i :: 0 <= i < |u| ==> !IsAsciiWhitespace(u[i]);
    assert forall i :: 0 <= i < |p| ==> p[i] == '=';
    assert forall i :: 0 <= i < |u + p| ==> (u + p)[i] == if i < |u| then u[i] else p[i - |u|];
  }

  /** `atob(btoa(s)) === s` for every string `btoa` accepts. */
  lemma AtobBtoa(s: string)
    requires IsLatin1(s)
    ensures Btoa(s).Some? && Atob(Btoa(s).value) == Some(s)
  {
    var bs := Bytes(s);
    var e := Encode(bs);
    assert Btoa(s) == Some(e);
    EncodeHasNoWhitespace(bs);
    RemovePaddingOfEncode(bs);
    var u := Unpadded(bs);
    DecodeUnpadded(bs);
    assert Chars(bs) == s;
    assert Atob(e) == Some(Chars(DecodeSextets(u)));
  }
}
