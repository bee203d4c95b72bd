/**
 The share link of the result page (`shareUrl` in
 src/components/ResultPreview.tsx): the reading's name, birth time value
 and unlock flag are joined with `|`, percent-encoded, base64-encoded and
 put in the `v` query parameter, followed by a `report` slug made from the
 name.

 The link as written puts the base64 text into the query as it is. Base64
 text may hold `+`, which the query parser reads as a space, so some links
 do not restore; `ShareUrlFixed` percent-encodes the base64 text as well.
 */
module ShareLink {
  import opened Strings
  import opened Decimal
  import opened Percent
  import opened Base64
  import opened Url
  import opened Numerology

  /** `String(dob.getTime())`: the time value in decimal, or `NaN` for an invalid date. */
  function DobText(dob: Dob): (s: string)
    ensures '|' !in s && |s| > 0
  {
    match dob
    case Valid(ms) =>
      var s := IntToString(ms);
      assert forall i :: 0 <= i < |s| ==> s[i] == '-' || IsDigit(s[i]);
      s
    case InvalidDate => "NaN"
  }

  function Flag(unlocked: bool): string {
    if unlocked then "1" else "0"
  }

  /** The text a share link carries: name, time value and unlock flag, separated by `|`. */
  function Payload(name: string, dob: Dob, unlocked: bool): string {
    name + "|" + DobText(dob) + "|" + Flag(unlocked)
  }

  /** Splitting the payload at `|` gives the pieces of the name, then the time value and the flag. */
  lemma PayloadFields(name: string, dob: Dob, unlocked: bool)
    ensures Split(Payload(name, dob, unlocked), '|') == Split(name, '|') + [DobText(dob), Flag(unlocked)]
  {
    var d, f := DobText(dob), Flag(unlocked);
    assert Payload(name, dob, unlocked) == name + ['|'] + (d + ['|'] + f);
    SplitAfter(name, d + ['|'] + f);
    SplitAfter(d, f);
    assert Split(d, '|') == [d];
    assert '|' !in f;
    assert Split(f, '|') == [f];
  }

  /** Splitting `a|b` is splitting `a` and then `b`. */
  lemma {:induction false} SplitAfter(a: string, b: string)
    ensures Split(a + ['|'] + b, '|') == Split(a, '|') + Split(b, '|')
    decreases |a|
  {
    if '|' !in a {
      SplitFirst(a, '|', b);
    } else {
      var i := IndexOf(a, '|');
      var a0, a1 := a[..i], a[i + 1..];
      assert a == a0 + ['|'] + a1;
      SplitAfter(a1, b);
      SplitAfterStep(a0, a1, b);
    }
  }

  lemma SplitAfterStep(a0: string, a1: string, b: string)
    requires '|' !in a0
    requires Split(a1 + ['|'] + b, '|') == Split(a1, '|') + Split(b, '|')
    ensures Split(a0 + ['|'] + a1 + ['|'] + b, '|') == Split(a0 + ['|'] + a1, '|') + Split(b, '|')
  {
    var rest := a1 + ['|'] + b;
    Regroup(a0, a1, b);
    SplitFirst(a0, '|', rest);
    SplitFirst(a0, '|', a1);
    ConsAppend(a0, Split(a1, '|'), Split(b, '|'));
  }

  lemma ConsAppend<T>(h: T, x: seq<T>, y: seq<T>)
    ensures [h] + (x + y) == ([h] + x) + y
  {
  }

  lemma Regroup(a0: string, a1: string, b: string)
    ensures a0 + ['|'] + a1 + ['|'] + b == a0 + ['|'] + (a1 + ['|'] + b)
  {
  }

  /** What `encodeURIComponent` writes is ASCII, so `btoa` accepts it. */
  lemma EncodedIsAscii(s: string)
    ensures forall i :: 0 <= i < |EncodeURIComponent(s)| ==> EncodeURIComponent(s)[i] as int < 0x80
    ensures IsLatin1(EncodeURIComponent(s))
  {
  }

  /** `btoa(encodeURIComponent(payload))`, which never throws; `atob` gives the encoded payload back. */
  function EncodedData(payload: string): (e: string)
    ensures Btoa(EncodeURIComponent(payload)) == Some(e)
    ensures Atob(e) == Some(EncodeURIComponent(payload))
    ensures forall i :: 0 <= i < |e| ==> IsBase64Char(e[i])
  {
    var t := EncodeURIComponent(payload);
    EncodedIsAscii(payload);
    AtobBtoa(t);
    EncodeCharacters(Bytes(t));
    Btoa(t).value
  }

  /** The characters `btoa` writes: the alphabet and `=`. */
  predicate IsBase64Char(c: char) {
    c == '=' || SextetValue(c).Some?
  }

  lemma Base64CharIsPlain(c: char)
    requires IsBase64Char(c)
    ensures c != '&' && c != '#' && c != '%' && c as int < 0x80
  {
  }

  lemma EncodeCharacters(bs: seq<Byte>)
    ensures forall i :: 0 <= i < |Encode(bs)| ==> IsBase64Char(Encode(bs)[i])
  {
    var u, p := Unpadded(bs), Padding(bs);
    assert forall i :: 0 <= i < |p| ==> p[i] == '=';
    assert forall i :: 0 <= i < |u + p| ==> (u + p)[i] == if i < |u| then u[i] else p[i - |u|];
  }

  // ---------------------------------------------------------------------
  // The report slug
  // ---------------------------------------------------------------------

  /** `s.replace(/\s+/g, '-')`: every run of white space becomes one `-`. */
  function Collapse(s: string): (r: string)
    ensures forall i :: 0 <= i < |r| ==> !IsSpace(r[i])
    ensures (forall i :: 0 <= i < |s| ==> !IsSpace(s[i])) ==> r == s
    ensures |r| <= |s|
    decreases |s|
  {
    if |s| == 0 then
      ""
    else if IsSpace(s[0]) then
      var t := TrimStart(s);
      "-" + Collapse(t)
    else
      assert s == [s[0]] + s[1..];
      [s[0]] + Collapse(s[1..])
  }

  /** `name.trim().toLowerCase().replace(/\s+/g, '-')`. */
  function Slug(name: string): (slug: string)
    ensures forall i :: 0 <= i < |slug| ==> !IsSpace(slug[i])
    ensures |slug| <= |Trim(name)|
  {
    Collapse(Lower(Trim(name)))
  }

  /** The characters of `s` that are neither white space nor `-`, in order. */
  function Letters(s: string): string
    decreases |s|
  {
    if |s| == 0 then ""
    else if IsSpace(s[0]) || s[0] == '-' then Letters(s[1..])
    else [s[0]] + Letters(s[1..])
  }

  lemma {:induction false} LettersTrimStart(s: string)
    ensures Letters(TrimStart(s)) == Letters(s)
    decreases |s|
  {
    if |s| > 0 && IsSpace(s[0]) {
      LettersTrimStart(s[1..]);
    }
  }

  /** Collapsing white space changes only white space and dashes: the other characters stay, in order. */
  lemma {:induction false} CollapseKeepsLetters(s: string)
    ensures Letters(Collapse(s)) == Letters(s)
    decreases |s|
  {
    if |s| > 0 {
      if IsSpace(s[0]) {
        var t := TrimStart(s);
        CollapseKeepsLetters(t);
        LettersTrimStart(s);
        assert ("-" + Collapse(t))[1..] == Collapse(t);
      } else {
        CollapseKeepsLetters(s[1..]);
        assert ([s[0]] + Collapse(s[1..]))[1..] == Collapse(s[1..]);
      }
    }
  }

  lemma {:induction false} TrimStartOfNoSpace(s: string)
    requires forall i :: 0 <= i < |s| ==> !IsSpace(s[i])
    ensures TrimStart(s) == s
  {
  }

  lemma {:induction false} TrimEndOfNoSpace(s: string)
    requires forall i :: 0 <= i < |s| ==> !IsSpace(s[i])
    ensures TrimEnd(s) == s
  {
  }

  /** A slug holds no white space, and making a slug of a slug changes nothing. */
  lemma SlugIdempotent(name: string)
    ensures forall i :: 0 <= i < |Slug(name)| ==> !IsSpace(Slug(name)[i])
    ensures Slug(Slug(name)) == Slug(name)
  {
    var s := Slug(name);
    TrimStartOfNoSpace(s);
    TrimEndOfNoSpace(s);
    assert Trim(s) == s;
    LowerHasNoUpper(Trim(name));
    CollapseNoUpper(Lower(Trim(name)));
    LowerOfNoUpper(s);
  }

  predicate NoUpper(s: string) {
    forall i :: 0 <= i < |s| ==> !('A' <= s[i] <= 'Z')
  }

  lemma {:induction false} CollapseNoUpper(s: string)
    requires NoUpper(s)
    ensures NoUpper(Collapse(s))
    decreases |s|
  {
    if |s| > 0 {
      if IsSpace(s[0]) {
        var t := TrimStart(s);
        assert forall i :: 0 <= i < |t| ==> t[i] == s[|s| - |t| + i];
        CollapseNoUpper(t);
      } else {
        CollapseNoUpper(s[1..]);
      }
    }
  }

  lemma LowerHasNoUpper(s: string)
    ensures NoUpper(Lower(s))
  {
    forall i | 0 <= i < |s|
      ensures !('A' <= Lower(s)[i] <= 'Z')
    {
      assert Lower(s)[i] == ToLower(s[i]);
    }
  }

  lemma LowerOfNoUpper(s: string)
    requires NoUpper(s)
    ensures Lower(s) == s
  {
  }

  /** The characters of the trimmed, lower-cased name other than white space and `-` are the slug's. */
  lemma SlugKeepsLetters(name: string)
    ensures Letters(Slug(name)) == Letters(Lower(Trim(name)))
  {
    CollapseKeepsLetters(Lower(Trim(name)));
  }

  /** When the last character of `s` is not white space, collapsing keeps it last. */
  lemma {:induction false} CollapseKeepsLast(s: string)
    requires |s| > 0 && !IsSpace(s[|s| - 1])
    ensures |Collapse(s)| > 0 && Collapse(s)[|Collapse(s)| - 1] == s[|s| - 1]
    decreases |s|
  {
    if IsSpace(s[0]) {
      CollapseKeepsLast(TrimStart(s));
    } else if |s| > 1 {
      CollapseKeepsLast(s[1..]);
    }
  }

  /** Trimming a run of white space off the front leaves the text that follows it. */
  lemma {:induction false} TrimStartRun(w: string, y: string)
    requires forall i :: 0 <= i < |w| ==> IsSpace(w[i])
    requires |y| > 0 ==> !IsSpace(y[0])
    ensures TrimStart(w + y) == y
    decreases |w|
  {
    if |w| == 0 {
      assert w + y == y;
    } else {
      assert (w + y)[1..] == w[1..] + y;
      TrimStartRun(w[1..], y);
    }
  }

  /** A run of white space at the front becomes one `-`. */
  lemma CollapseRunStart(w: string, y: string)
    requires |w| > 0 && forall i :: 0 <= i < |w| ==> IsSpace(w[i])
    requires |y| > 0 ==> !IsSpace(y[0])
    ensures Collapse(w + y) == "-" + Collapse(y)
  {
    assert (w + y)[0] == w[0];
    TrimStartRun(w, y);
  }

  /** Regrouping a concatenation of three sequences around its first element. */
  lemma HeadAppend<T>(a: seq<T>, b: seq<T>, c: seq<T>)
    requires |a| > 0
    ensures a + b + c == [a[0]] + (a[1..] + b + c)
  {
  }

  lemma EmptyAppend<T>(a: seq<T>, b: seq<T>, c: seq<T>)
    requires |a| == 0
    ensures a + b + c == b + c
  {
  }

  /** A character other than white space is kept as it is. */
  lemma CollapseCons(c: char, t: string)
    requires !IsSpace(c)
    ensures Collapse([c] + t) == [c] + Collapse(t)
  {
    assert ([c] + t)[1..] == t;
  }

  /** One step of CollapseRun: a leading character other than white space is kept in front. */
  lemma CollapseRunStep(x: string, w: string, y: string)
    requires |x| > 0 && !IsSpace(x[0])
    requires Collapse(x[1..] + w + y) == x[1..] + "-" + Collapse(y)
    ensures Collapse(x + w + y) == x + "-" + Collapse(y)
  {
    var rest := x[1..] + w + y;
    calc {
      Collapse(x + w + y);
      == { HeadAppend(x, w, y); }
      Collapse([x[0]] + rest);
      == { CollapseCons(x[0], rest); }
      [x[0]] + (x[1..] + "-" + Collapse(y));
      == { HeadAppend(x, "-", Collapse(y)); }
      x + "-" + Collapse(y);
    }
  }

  /**
   A whole run of white space becomes one `-`: after text `x` free of white
   space, the run `w` is replaced by a single dash and collapsing carries on
   with the text `y` that follows the run.
   */
  lemma {:induction false} CollapseRun(x: string, w: string, y: string)
    requires forall i :: 0 <= i < |x| ==> !IsSpace(x[i])
    requires |w| > 0 && forall i :: 0 <= i < |w| ==> IsSpace(w[i])
    requires |y| > 0 ==> !IsSpace(y[0])
    ensures Collapse(x + w + y) == x + "-" + Collapse(y)
    decreases |x|
  {
    if |x| == 0 {
      EmptyAppend(x, w, y);
      EmptyAppend(x, "-", Collapse(y));
      CollapseRunStart(w, y);
    } else {
      CollapseRun(x[1..], w, y);
      CollapseRunStep(x, w, y);
    }
  }

  /**
   A slug is empty exactly when the name is all white space. Otherwise it
   starts and ends with the first and last characters of the trimmed,
   lower-cased name, so a `-` at either end never stands for white space.
   */
  lemma SlugEnds(name: string)
    ensures |Slug(name)| > 0 <==> |Trim(name)| > 0
    ensures |Slug(name)| > 0 ==>
      Slug(name)[0] == Lower(Trim(name))[0] && !IsSpace(Slug(name)[0])
      && Slug(name)[|Slug(name)| - 1] == Lower(Trim(name))[|Trim(name)| - 1] && !IsSpace(Slug(name)[|Slug(name)| - 1])
  {
    var t := Lower(Trim(name));
    if |t| > 0 {
      assert !IsSpace(t[0]) && !IsSpace(t[|t| - 1]);
      CollapseKeepsLast(t);
    }
  }

  // ---------------------------------------------------------------------
  // The link
  // ---------------------------------------------------------------------

  /** `origin + pathname + "?v=" + data + "&report=" + slug`. */
  function Link(origin: string, pathname: string, data: string, slug: string): string {
    origin + pathname + "?v=" + data + "&report=" + slug
  }

  /** The link as written, with the base64 text as it is; empty without a reading. */
  function ShareUrl(origin: string, pathname: string, reading: Option<Reading>, unlocked: bool): (url: string)
    ensures reading.None? <==> url == ""
  {
    if reading.None? then
      ""
    else
      var r := reading.value;
      Link(origin, pathname, EncodedData(Payload(r.name, r.dob, unlocked)), Slug(r.name))
  }

  /** The link with the base64 text percent-encoded, so that `+`, `/` and `=` reach the reader intact. */
  function ShareUrlFixed(origin: string, pathname: string, reading: Option<Reading>, unlocked: bool): (url: string)
    ensures reading.None? <==> url == ""
  {
    if reading.None? then
      ""
    else
      var r := reading.value;
      Link(origin, pathname, EncodeURIComponent(EncodedData(Payload(r.name, r.dob, unlocked))), Slug(r.name))
  }

  /** Base64 text holds no `&`, `#` or `%`, and only ASCII. */
  lemma Base64TextIsPlain(e: string)
    requires forall i :: 0 <= i < |e| ==> IsBase64Char(e[i])
    ensures '&' !in e && '#' !in e && '%' !in e
    ensures forall i :: 0 <= i < |e| ==> e[i] as int < 0x80
  {
    forall i | 0 <= i < |e|
      ensures e[i] != '&' && e[i] != '#' && e[i] != '%' && e[i] as int < 0x80
    {
      Base64CharIsPlain(e[i]);
    }
  }

  /** Percent-encoded text holds no `&` and no `#`. */
  lemma EncodedIsPlain(s: string)
    ensures '&' !in EncodeURIComponent(s) && '#' !in EncodeURIComponent(s)
  {
    var f := EncodeURIComponent(s);
    assert forall i :: 0 <= i < |f| ==> IsEncodedChar(f[i]);
  }

  /** The query value `v` of a link is its form-decoded data, whatever the slug holds. */
  lemma LinkCarries(origin: string, pathname: string, data: string, slug: string)
    requires '?' !in origin + pathname && '#' !in origin + pathname
    requires '&' !in data && '#' !in data
    ensures QueryGet(Query(Link(origin, pathname, data, slug)), "v") == Some(FormDecode(data))
  {
    var tail := "&report=" + slug;
    assert Link(origin, pathname, data, slug) == (origin + pathname) + "?v=" + data + tail;
    QueryGetFirst(origin + pathname, data, tail);
  }

  /** The query value `v` of the link as written: the base64 text, form-decoded. */
  lemma ShareUrlCarries(origin: string, pathname: string, r: Reading, unlocked: bool)
    requires '?' !in origin + pathname && '#' !in origin + pathname
    ensures QueryGet(Query(ShareUrl(origin, pathname, Some(r), unlocked)), "v")
         == Some(FormDecode(EncodedData(Payload(r.name, r.dob, unlocked))))
  {
    var e := EncodedData(Payload(r.name, r.dob, unlocked));
    Base64TextIsPlain(e);
    LinkCarries(origin, pathname, e, Slug(r.name));
  }

  /** The query value `v` of the corrected link is exactly the base64 text. */
  lemma ShareUrlFixedCarries(origin: string, pathname: string, r: Reading, unlocked: bool)
    requires '?' !in origin + pathname && '#' !in origin + pathname
    ensures QueryGet(Query(ShareUrlFixed(origin, pathname, Some(r), unlocked)), "v")
         == Some(EncodedData(Payload(r.name, r.dob, unlocked)))
  {
    var e := EncodedData(Payload(r.name, r.dob, unlocked));
    Base64TextIsPlain(e);
    EncodedIsPlain(e);
    LinkCarries(origin, pathname, EncodeURIComponent(e), Slug(r.name));
    FormDecodeEncode(e);
  }

  // ---------------------------------------------------------------------
  // A link that does not survive the query parser
  // ---------------------------------------------------------------------

  lemma ExamplePayload(name: string)
    ensures Payload(name, Valid(0), false) == name + "|0|0"
  {
    assert NatToString(0) == "0";
  }

  lemma {:induction false} EncodeAppend(a: string, b: string)
    ensures EncodeURIComponent(a + b) == EncodeURIComponent(a) + EncodeURIComponent(b)
    decreases |a|
  {
    if |a| == 0 {
      assert a + b == b;
    } else {
      assert (a + b)[0] == a[0] && (a + b)[1..] == a[1..] + b;
      EncodeAppend(a[1..], b);
    }
  }

  lemma {:induction false} EncodeUnreserved(s: string)
    requires forall i :: 0 <= i < |s| ==> IsUnreserved(s[i])
    ensures EncodeURIComponent(s) == s
    decreases |s|
  {
    if |s| > 0 {
      EncodeUnreserved(s[1..]);
      assert s == [s[0]] + s[1..];
    }
  }

  lemma EncodePipe()
    ensures EncodeChar('|') == "%7C"
  {
    assert Utf8('|') == [0x7C];
    assert EscapeBytes([0x7C]) == EscapeByte(0x7C);
  }

  lemma ExampleEncodedTail()
    ensures EncodeURIComponent("|0|0") == "%7C0%7C0"
  {
    EncodePipe();
    EncodeUnreserved("0");
    EncodeAppend("|", "0");
    assert EncodeURIComponent("|") == "%7C";
    EncodeAppend("|0", "|0");
    assert "|0" + "|0" == "|0|0";
  }

  lemma ExampleEncoded()
    ensures EncodeURIComponent("ab~" + "|0|0") == "ab~" + "%7C0%7C0"
  {
    EncodeAppend("ab~", "|0|0");
    EncodeUnreserved("ab~");
    ExampleEncodedTail();
  }

  lemma {:induction false} BytesAppend(a: string, b: string)
    requires IsLatin1(a) && IsLatin1(b)
    ensures IsLatin1(a + b) && Bytes(a + b) == Bytes(a) + Bytes(b)
  {
    assert forall i :: 0 <= i < |a + b| ==> (a + b)[i] == if i < |a| then a[i] else b[i - |a|];
  }

  lemma ExampleBytes()
    ensures IsLatin1("ab~" + "%7C0%7C0")
    ensures Bytes("ab~" + "%7C0%7C0") == [0x61, 0x62, 0x7E] + [0x25, 0x37, 0x43, 0x30, 0x25, 0x37, 0x43, 0x30]
  {
    assert Bytes("ab~") == [0x61, 0x62, 0x7E];
    assert Bytes("%7C0%7C0") == [0x25, 0x37, 0x43, 0x30, 0x25, 0x37, 0x43, 0x30];
    BytesAppend("ab~", "%7C0%7C0");
  }

  /** Base64 text of alphabet characters other than `+`: no `+`, `%`, `=` or white space. */
  predicate PlainBase64(t: string) {
    forall i :: 0 <= i < |t| ==> SextetValue(t[i]).Some? && SextetValue(t[i]).value != 62
  }

  lemma PlainBase64Facts(t: string)
    requires PlainBase64(t)
    ensures AllSextets(t) && '+' !in t && '%' !in t && '=' !in t
    ensures forall i :: 0 <= i < |t| ==> !IsAsciiWhitespace(t[i])
  {
  }

  lemma PlainBase64Append(a: string, b: string)
    requires PlainBase64(a) && PlainBase64(b)
    ensures PlainBase64(a + b)
  {
    assert forall i :: 0 <= i < |a + b| ==> (a + b)[i] == if i < |a| then a[i] else b[i - |a|];
  }

  /** The characters `Quad` writes for three bytes whose six-bit groups are `x0` to `x3`. */
  lemma QuadOf(b0: Byte, b1: Byte, b2: Byte, x0: nat, x1: nat, x2: nat, x3: nat)
    requires x0 == b0 / 4 && x1 == (b0 % 4) * 16 + b1 / 16 && x2 == (b1 % 16) * 4 + b2 / 64 && x3 == b2 % 64
    ensures x0 < 64 && x1 < 64 && x2 < 64 && x3 < 64
    ensures Quad(b0, b1, b2) == [SextetChar(x0), SextetChar(x1), SextetChar(x2), SextetChar(x3)]
  {
  }

  lemma PlainSextet(x: nat)
    requires x < 64 && x != 62
    ensures SextetValue(SextetChar(x)).Some? && SextetValue(SextetChar(x)).value != 62
  {
  }

  lemma QuadIsPlain(b0: Byte, b1: Byte, b2: Byte, x0: nat, x1: nat, x2: nat, x3: nat)
    requires x0 == b0 / 4 && x1 == (b0 % 4) * 16 + b1 / 16 && x2 == (b1 % 16) * 4 + b2 / 64 && x3 == b2 % 64
    requires x0 != 62 && x1 != 62 && x2 != 62 && x3 != 62
    ensures PlainBase64(Quad(b0, b1, b2))
  {
    QuadOf(b0, b1, b2, x0, x1, x2, x3);
    PlainSextet(x0);
    PlainSextet(x1);
    PlainSextet(x2);
    PlainSextet(x3);
  }

  /** Three whole groups of bytes are encoded before the rest. */
  lemma UnpaddedStep(x: seq<Byte>, y: seq<Byte>)
    requires |x| == 3
    ensures Unpadded(x + y) == Quad(x[0], x[1], x[2]) + Unpadded(y)
  {
    assert (x + y)[3..] == y;
  }

  /** The first group of the example: three alphabet characters and `+` (the byte `~` ends in 62). */
  lemma ExampleFirstGroup() returns (a: string)
    ensures Quad(0x61, 0x62, 0x7E) == a + ['+']
    ensures PlainBase64(a) && |a| == 3
  {
    QuadOf(0x61, 0x62, 0x7E, 24, 22, 9, 62);
    a := [SextetChar(24), SextetChar(22), SextetChar(9)];
    PlainSextet(24);
    PlainSextet(22);
    PlainSextet(9);
  }

  lemma ExampleTail(z: seq<Byte>) returns (t: string)
    requires z == [0x43, 0x30]
    ensures Unpadded(z) == t && PlainBase64(t) && |t| == 3
  {
    t := [SextetChar(16), SextetChar(51), SextetChar(0)];
    assert Unpadded(z) == t;
    PlainSextet(16);
    PlainSextet(51);
    PlainSextet(0);
  }

  lemma ExampleLastGroups(y: seq<Byte>) returns (b: string)
    requires y == [0x25, 0x37, 0x43, 0x30, 0x25, 0x37, 0x43, 0x30]
    ensures Unpadded(y) == b
    ensures PlainBase64(b) && |b| == 11
  {
    QuadIsPlain(0x25, 0x37, 0x43, 9, 19, 29, 3);
    QuadIsPlain(0x30, 0x25, 0x37, 12, 2, 20, 55);
    var last := ExampleTail(y[6..]);
    PlainBase64Append(Quad(0x30, 0x25, 0x37), last);
    PlainBase64Append(Quad(0x25, 0x37, 0x43), Quad(0x30, 0x25, 0x37) + last);
    assert y[3..] == y[3..6] + y[6..];
    UnpaddedStep(y[3..6], y[6..]);
    assert y == y[..3] + y[3..];
    UnpaddedStep(y[..3], y[3..]);
    b := Quad(0x25, 0x37, 0x43) + (Quad(0x30, 0x25, 0x37) + last);
  }

  /** The base64 text of the example: three alphabet characters, `+`, eleven more and `=`. */
  lemma ExampleBase64(x: seq<Byte>, y: seq<Byte>) returns (a: string, b: string)
    requires x == [0x61, 0x62, 0x7E] && y == [0x25, 0x37, 0x43, 0x30, 0x25, 0x37, 0x43, 0x30]
    ensures Encode(x + y) == a + ['+'] + (b + "=")
    ensures PlainBase64(a) && PlainBase64(b) && |a| == 3 && |b| == 11
  {
    a := ExampleFirstGroup();
    b := ExampleLastGroups(y);
    UnpaddedStep(x, y);
    assert |x + y| == 11;
    assert Padding(x + y) == "=";
  }

  /** The query parser turns a lone `+` between plain text into a space. */
  lemma PlusBecomesSpace(a: string, b: string)
    requires '+' !in a && '%' !in a && '+' !in b && '%' !in b
    ensures FormDecode(a + ['+'] + b) == a + [' '] + b
  {
    var pb := ['+'] + b;
    assert a + ['+'] + b == a + pb;
    FormDecodeAppend(a, pb);
    FormDecodePlain(a);
    FormDecodePlain(b);
    assert pb[1..] == b;
  }

  lemma {:induction false} RemoveWhitespaceAround(a: string, c: string)
    requires forall i :: 0 <= i < |a| ==> !IsAsciiWhitespace(a[i])
    requires forall i :: 0 <= i < |c| ==> !IsAsciiWhitespace(c[i])
    ensures RemoveWhitespace(a + [' '] + c) == a + c
    decreases |a|
  {
    if |a| == 0 {
      assert a + [' '] + c == [' '] + c;
      assert ([' '] + c)[1..] == c;
    } else {
      assert (a + [' '] + c)[1..] == a[1..] + [' '] + c;
      RemoveWhitespaceAround(a[1..], c);
      assert [a[0]] + (a[1..] + c) == a + c;
    }
  }

  /**
   Base64 text with one `=` of padding, whose `+` is read as a space: once
   `atob` drops the space, the length leaves remainder 3 modulo 4, the `=`
   stays, and `atob` refuses it.
   */
  lemma SpaceBreaksPadding(a: string, b: string)
    requires AllSextets(a) && AllSextets(b) && (|a| + |b|) % 4 == 2
    ensures Atob(a + [' '] + (b + "=")) == None
  {
    assert forall i :: 0 <= i < |a| ==> !IsAsciiWhitespace(a[i]);
    var c := b + "=";
    assert forall i :: 0 <= i < |c| ==> !IsAsciiWhitespace(c[i]) by {
      assert forall i :: 0 <= i < |c| ==> c[i] == if i < |b| then b[i] else '=';
    }
    RemoveWhitespaceAround(a, c);
    var u := a + c;
    assert |u| % 4 == 3;
    assert RemovePadding(u) == u;
    assert u[|u| - 1] == '=';
  }

  /** A `v` value made of plain base64, one `+` after the third character, and one `=` is lost. */
  lemma LostValue(e: string, a: string, b: string)
    requires e == a + ['+'] + (b + "=")
    requires PlainBase64(a) && PlainBase64(b) && |a| == 3 && |b| == 11
    ensures Atob(FormDecode(e)) == None
  {
    PlainBase64Facts(a);
    PlainBase64Facts(b);
    assert '+' !in b + "=" && '%' !in b + "=" by {
      assert forall i :: 0 <= i < |b + "="| ==> (b + "=")[i] == if i < |b| then b[i] else '=';
    }
    PlusBecomesSpace(a, b + "=");
    SpaceBreaksPadding(a, b);
  }

  /** The base64 text of the link for the name `ab~`, birth time value 0 and a locked report. */
  lemma ExampleData() returns (a: string, b: string)
    ensures EncodedData(Payload("ab~", Valid(0), false)) == a + ['+'] + (b + "=")
    ensures PlainBase64(a) && PlainBase64(b) && |a| == 3 && |b| == 11
  {
    ExamplePayload("ab~");
    ExampleEncoded();
    ExampleBytes();
    a, b := ExampleBase64([0x61, 0x62, 0x7E], [0x25, 0x37, 0x43, 0x30, 0x25, 0x37, 0x43, 0x30]);
  }

  /**
   The share link as written for the name `ab~`, birth time value 0 and a
   locked report carries a `v` value that `atob` refuses once the query
   parser has turned its `+` into a space.
   */
  lemma ExampleLinkIsLost()
    ensures Atob(FormDecode(EncodedData(Payload("ab~", Valid(0), false)))) == None
  {
    var a, b := ExampleData();
    LostValue(EncodedData(Payload("ab~", Valid(0), false)), a, b);
  }
}
