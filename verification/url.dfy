/**
 The part of the browser's URL handling that the share link travels
 through: `location.search` (the text between the first `?` and the
 fragment), and `URLSearchParams.get` over it, which follows the
 application/x-www-form-urlencoded parser of the WHATWG URL Standard
 (section 5.1): the query is cut at `&`, each piece at its first `=`, and
 names and values are decoded with `+` read as a space and `%XX` read as
 the byte it names.

 Decoded bytes of 0x80 and above are taken as the characters U+0080 to
 U+00FF instead of being read as UTF-8; every value the share link reads
 goes on to `atob`, which refuses such a character whichever form it has.
 */
module Url {
  import opened Strings
  import opened Percent

  /** The text before the first `c`, or all of `s` when `c` does not occur. */
  function Before(s: string, c: char): (r: string)
    ensures c !in r && StartsWith(s, r)
    ensures c !in s ==> r == s
  {
    if c in s then s[..IndexOf(s, c)] else s
  }

  /** The text after the first `c`, or nothing when `c` does not occur. */
  function After(s: string, c: char): (r: string)
    ensures c in s ==> s == s[..IndexOf(s, c)] + [c] + r
    ensures c !in s ==> r == ""
  {
    if c in s then s[IndexOf(s, c) + 1..] else ""
  }

  /** `location.search` without its leading `?`: the query of `href`, fragment excluded. */
  function Query(href: string): string {
    After(Before(href, '#'), '?')
  }

  /** Decodes a name or value of a query: `+` is a space and a valid `%XX` is the byte it names. */
  function FormDecode(s: string): (r: string)
    ensures |r| <= |s|
    decreases |s|
  {
    if |s| == 0 then
      ""
    else if s[0] == '+' then
      " " + FormDecode(s[1..])
    else if ReadEscape(s).Some? then
      [ReadEscape(s).value as char] + FormDecode(s[3..])
    else
      [s[0]] + FormDecode(s[1..])
  }

  /** The name of one `name=value` piece of a query. */
  function PairName(p: string): string {
    FormDecode(Before(p, '='))
  }

  function PairValue(p: string): string {
    FormDecode(After(p, '='))
  }

  /** The value of the first piece of `pieces` named `key`; empty pieces are skipped. */
  function Lookup(pieces: seq<string>, key: string): (r: Option<string>)
    ensures r.Some? ==> exists i :: 0 <= i < |pieces| && |pieces[i]| > 0 && PairName(pieces[i]) == key && r.value == PairValue(pieces[i])
                                    && forall j :: 0 <= j < i && |pieces[j]| > 0 ==> PairName(pieces[j]) != key
    ensures r.None? <==> forall i :: 0 <= i < |pieces| && |pieces[i]| > 0 ==> PairName(pieces[i]) != key
    decreases |pieces|
  {
    if |pieces| == 0 then
      None
    else if |pieces[0]| > 0 && PairName(pieces[0]) == key then
      Some(PairValue(pieces[0]))
    else
      var r := Lookup(pieces[1..], key);
      assert forall i :: 1 <= i < |pieces| ==> pieces[i] == pieces[1..][i - 1];
      r
  }

  /** `new URLSearchParams(query).get(key)`; `None` is `null`. */
  function QueryGet(query: string, key: string): Option<string> {
    Lookup(Split(query, '&'), key)
  }

  // ---------------------------------------------------------------------
  // Properties
  // ---------------------------------------------------------------------

  /** Text without `+` or `%` decodes to itself. */
  lemma {:induction false} FormDecodePlain(s: string)
    requires '+' !in s && '%' !in s
    ensures FormDecode(s) == s
    decreases |s|
  {
    if |s| > 0 {
      assert s == [s[0]] + s[1..];
      FormDecodePlain(s[1..]);
    }
  }

  /** Decoding keeps at least one character of non-empty text. */
  lemma FormDecodeNotEmpty(s: string)
    requires |s| > 0
    ensures |FormDecode(s)| > 0
  {
  }

  /** Decoding does not look across the end of a piece of text free of `%`. */
  lemma {:induction false} FormDecodeAppend(a: string, b: string)
    requires '%' !in a
    ensures FormDecode(a + b) == FormDecode(a) + FormDecode(b)
    decreases |a|
  {
    if |a| > 0 {
      assert (a + b)[1..] == a[1..] + b;
      FormDecodeAppend(a[1..], b);
    } else {
      assert a + b == b;
    }
  }

  lemma DecodeEscapeOf(c: char, rest: string)
    requires c as int < 0x80
    ensures FormDecode(EscapeBytes(Utf8(c)) + rest) == [c] + FormDecode(rest)
  {
    var b: Byte := c as int;
    assert Utf8(c) == [b];
    var e := EscapeByte(b);
    assert EscapeBytes(Utf8(c)) == e;
    HexValueOfDigit(b / 16);
    HexValueOfDigit(b % 16);
    var s := e + rest;
    assert s[0] == '%' && s[1] == HexDigit(b / 16) && s[2] == HexDigit(b % 16);
    assert ReadEscape(s) == Some(b);
    assert s[3..] == rest;
  }

  /** Form-decoding reads back what `encodeURIComponent` writes, for ASCII text. */
  lemma {:induction false} FormDecodeEncode(t: string)
    requires forall i :: 0 <= i < |t| ==> t[i] as int < 0x80
    ensures FormDecode(EncodeURIComponent(t)) == t
    decreases |t|
  {
    if |t| > 0 {
      var c := t[0];
      var rest := EncodeURIComponent(t[1..]);
      assert EncodeURIComponent(t) == EncodeChar(c) + rest;
      if IsUnreserved(c) {
        assert (EncodeChar(c) + rest)[1..] == rest;
      } else {
        DecodeEscapeOf(c, rest);
      }
      FormDecodeEncode(t[1..]);
      assert t == [c] + t[1..];
    }
  }

  lemma BeforeAppend(a: string, c: char, b: string)
    requires c !in a
    ensures Before(a + b, c) == a + Before(b, c)
  {
    if c in b {
      var i := IndexOf(b, c);
      assert (a + b)[|a| + i] == c;
      IndexOfShift(a, b, c);
      assert (a + b)[..|a| + i] == a + b[..i];
    } else {
      assert c !in a + b by {
        forall k | 0 <= k < |a + b|
          ensures (a + b)[k] != c
        {
          if k >= |a| {
            assert (a + b)[k] == b[k - |a|];
          }
        }
      }
    }
  }

  lemma IndexOfShift(a: string, b: string, c: char)
    requires c !in a && c in b
    ensures c in a + b && IndexOf(a + b, c) == |a| + IndexOf(b, c)
    decreases |a|
  {
    var i := IndexOf(b, c);
    assert (a + b)[|a| + i] == c;
    if |a| > 0 {
      assert (a + b)[1..] == a[1..] + b;
      IndexOfShift(a[1..], b, c);
    } else {
      assert a + b == b;
    }
  }

  /** The query of `base?<head>&<more>` starts with `<head>&`. */
  lemma QueryOfShape(base: string, head: string, more: string)
    requires '?' !in base && '#' !in base && '#' !in head
    ensures Query(base + ['?'] + head + ['&'] + more) == head + ['&'] + Before(more, '#')
  {
    var front := base + ['?'] + head + ['&'];
    assert '#' !in front;
    assert base + ['?'] + head + ['&'] + more == front + more;
    BeforeAppend(front, '#', more);
    var rest := head + ['&'] + Before(more, '#');
    assert front + Before(more, '#') == base + ['?'] + rest;
    IndexOfAfterFree(base, '?', rest);
    var h := base + ['?'] + rest;
    assert h[|base| + 1..] == rest;
  }

  /** The piece `v=<text>` is named `v` and holds the decoded `<text>`. */
  lemma PieceOfV(text: string)
    ensures |"v=" + text| > 0
    ensures PairName("v=" + text) == "v"
    ensures PairValue("v=" + text) == FormDecode(text)
  {
    var head := "v=" + text;
    assert head == ['v'] + ['='] + text;
    IndexOfAfterFree(['v'], '=', text);
    assert head[..1] == "v";
    assert head[2..] == text;
    FormDecodePlain("v");
  }

  /**
   In a URL of the form `base?v=<text>&<more>`, `URLSearchParams.get("v")`
   is the form-decoded `<text>`, whatever follows, fragment or not.
   */
  lemma QueryGetFirst(base: string, text: string, tail: string)
    requires '?' !in base && '#' !in base
    requires '#' !in text && '&' !in text
    requires |tail| > 0 && tail[0] == '&'
    ensures QueryGet(Query(base + "?v=" + text + tail), "v") == Some(FormDecode(text))
  {
    var rest := QueryOfV(base, text, tail);
    var head := "v=" + text;
    assert '&' !in head;
    SplitFirst(head, '&', rest);
    PieceOfV(text);
    LookupFirst(head, Split(rest, '&'), "v");
  }

  /** The query of `base?v=<text>&<more>` is `v=<text>&` and then some. */
  lemma QueryOfV(base: string, text: string, tail: string) returns (rest: string)
    requires '?' !in base && '#' !in base
    requires '#' !in text
    requires |tail| > 0 && tail[0] == '&'
    ensures Query(base + "?v=" + text + tail) == ("v=" + text) + ['&'] + rest
  {
    var head := "v=" + text;
    var more := tail[1..];
    assert tail == ['&'] + more;
    assert "?v=" + text == ['?'] + head;
    assert base + "?v=" + text + tail == base + ['?'] + head + ['&'] + more;
    assert '#' !in head;
    QueryOfShape(base, head, more);
    rest := Before(more, '#');
  }

  lemma LookupFirst(p: string, rest: seq<string>, key: string)
    requires |p| > 0 && PairName(p) == key
    ensures Lookup([p] + rest, key) == Some(PairValue(p))
  {
  }
}
