/**
 The two sitemap generators of the repository, `scripts/update_sitemap.py`
 and `scripts/generate-sitemap.js`. Each lists the blog directory, keeps the
 `.json` files, turns each into a `/blog/<slug>` URL, and writes a sitemap in
 the format of the sitemaps.org protocol 0.9: a fixed set of static pages
 first, then one `<url>` block per post.

 The directory listing, the base URL, today's date and whether the output
 file can be written are parameters; the result is the document text (and
 the count the script reports) instead of a file.
 */
module Sitemap {
  import opened Strings

  /** The generator a behaviour belongs to; they differ in slugs, static pages and errors. */
  datatype Script = Python | JavaScript

  /** What listing the blog directory gives: it is absent, cannot be read, or names its files in order. */
  datatype Listing = Missing | Unreadable | Present(names: seq<string>)

  /** One `<url>` element of the sitemap. */
  datatype Entry = Entry(loc: string, lastmod: string, changefreq: string, priority: string)

  /**
   The end of a run: the document was written (with the number of blog URLs
   the script reports, and whether it logged that the directory was
   missing), or the script ended with the given exit status.
   */
  datatype Outcome = Written(xml: string, blogCount: nat, reportedMissing: bool) | Aborted(status: nat)

  const JsonSuffix: string := ".json"

  /** The site both scripts write the sitemap for. */
  const BaseUrl: string := "https://numguru.online"

  /** Python: `filename[:-5]`, the name without its last five characters. */
  function PySlug(name: string): (slug: string)
    requires EndsWith(name, JsonSuffix)
    ensures slug + JsonSuffix == name
  {
    name[..|name| - 5]
  }

  /** JavaScript: `file.replace('.json', '')`, which removes the FIRST occurrence of `.json`. */
  function JsSlug(name: string): (slug: string)
    requires EndsWith(name, JsonSuffix)
    ensures |slug| + 5 == |name|
  {
    assert OccursAt(name, JsonSuffix, |name| - 5);
    ReplaceFirst(name, JsonSuffix, "")
  }

  /** The slug of a blog file under either script: the name without five characters' worth of `.json`. */
  function Slug(script: Script, name: string): (slug: string)
    requires EndsWith(name, JsonSuffix)
    ensures |slug| + 5 == |name|
    ensures script == Python ==> slug + JsonSuffix == name
  {
    match script
    case Python => PySlug(name)
    case JavaScript => JsSlug(name)
  }

  /** When `.json` occurs in a name only as its suffix, both scripts derive the same slug. */
  lemma SlugsAgree(name: string)
    requires EndsWith(name, JsonSuffix)
    requires forall j :: 0 <= j < |name| - 5 ==> !OccursAt(name, JsonSuffix, j)
    ensures JsSlug(name) == PySlug(name)
  {
    assert OccursAt(name, JsonSuffix, |name| - 5);
    var first := FindFirst(name, JsonSuffix);
    assert first == Some(|name| - 5);
    assert name[|name| - 5 + |JsonSuffix|..] == [];
  }

  /** A name with `.json` inside gets different slugs: Python cuts the end, JavaScript the first `.json`. */
  lemma SlugsDiverge(name: string)
    requires name == "a.json.b.json"
    ensures EndsWith(name, JsonSuffix)
    ensures PySlug(name) == "a.json.b"
    ensures JsSlug(name) == "a.b.json"
  {
    assert name[0..5][0] != JsonSuffix[0];
    assert name[1..6] == JsonSuffix;
    assert FindFirst(name, JsonSuffix) == Some(1);
  }

  /** The listing entries whose names end with `.json`, in listing order. */
  function JsonNames(names: seq<string>): (r: seq<string>)
    ensures |r| <= |names|
    ensures forall i :: 0 <= i < |r| ==> EndsWith(r[i], JsonSuffix)
    ensures forall n :: n in r <==> n in names && EndsWith(n, JsonSuffix)
    decreases |names|
  {
    if |names| == 0 then
      []
    else
      var rest := JsonNames(names[1..]);
      assert forall n :: n in names <==> n == names[0] || n in names[1..];
      if EndsWith(names[0], JsonSuffix) then [names[0]] + rest else rest
  }

  /** Filtering a listing split in two is filtering each part: the listing order is kept. */
  lemma {:induction false} JsonNamesAppend(a: seq<string>, b: seq<string>)
    ensures JsonNames(a + b) == JsonNames(a) + JsonNames(b)
    decreases |a|
  {
    if |a| > 0 {
      assert (a + b)[1..] == a[1..] + b;
      JsonNamesAppend(a[1..], b);
    } else {
      assert a + b == b;
    }
  }

  function BlogUrl(base: string, slug: string): string {
    base + "/blog/" + slug
  }

  /** The blog URLs a script derives from the listed names. */
  function BlogUrls(script: Script, base: string, names: seq<string>): (urls: seq<string>)
    ensures |urls| == |JsonNames(names)|
    ensures forall i :: 0 <= i < |urls| ==>
      urls[i] == BlogUrl(base, Slug(script, JsonNames(names)[i]))
    decreases |names|
  {
    if |names| == 0 then
      []
    else
      var rest := BlogUrls(script, base, names[1..]);
      if EndsWith(names[0], JsonSuffix) then [BlogUrl(base, Slug(script, names[0]))] + rest else rest
  }

  function ListedNames(listing: Listing): seq<string> {
    if listing.Present? then listing.names else []
  }

  /** The static pages: Python writes five, JavaScript only the first two. */
  function StaticEntries(script: Script, base: string, today: string): (es: seq<Entry>)
    ensures |es| == (if script == Python then 5 else 2)
  {
    var home := Entry(base + "/", today, "daily", "1.0");
    var blog := Entry(base + "/blog", today, "daily", "0.9");
    match script
    case Python => [
      home,
      blog,
      Entry(base + "/privacy-policy", today, "monthly", "0.3"),
      Entry(base + "/terms-conditions", today, "monthly", "0.3"),
      Entry(base + "/refund-policy", today, "monthly", "0.3")
    ]
    case JavaScript => [home, blog]
  }

  /** JavaScript writes the first two static pages of the Python script and none of the policy pages. */
  lemma JsStaticsArePythonPrefix(base: string, today: string)
    ensures StaticEntries(JavaScript, base, today) == StaticEntries(Python, base, today)[..2]
    ensures forall e :: e in StaticEntries(JavaScript, base, today) ==> e.changefreq == "daily"
  {
  }

  function BlogEntry(url: string, today: string): Entry {
    Entry(url, today, "weekly", "0.7")
  }

  function BlogEntries(urls: seq<string>, today: string): (es: seq<Entry>)
    ensures |es| == |urls|
    ensures forall i :: 0 <= i < |urls| ==> es[i] == BlogEntry(urls[i], today)
  {
    seq(|urls|, i requires 0 <= i < |urls| => BlogEntry(urls[i], today))
  }

  /** Every entry a script puts into its sitemap, in document order. */
  function Entries(script: Script, base: string, today: string, names: seq<string>): (es: seq<Entry>)
    ensures var n := |StaticEntries(script, base, today)|;
      |es| == n + |BlogUrls(script, base, names)|
      && es[..n] == StaticEntries(script, base, today)
      && forall i :: n <= i < |es| ==> es[i] == BlogEntry(BlogUrls(script, base, names)[i - n], today)
  {
    var statics := StaticEntries(script, base, today);
    var blog := BlogEntries(BlogUrls(script, base, names), today);
    assert (statics + blog)[..|statics|] == statics;
    statics + blog
  }

  /**
   The literal text of a document around the fields: what comes before the
   blocks, what closes the document, and the tags around the four fields of
   a block.
   */
  datatype Markup = Markup(
    header: string, footer: string, openLoc: string, locToLastmod: string,
    lastmodToChangefreq: string, changefreqToPriority: string, closeUrl: string)

  /** The markup both scripts write (sitemaps.org protocol 0.9, two-space indentation). */
  const Sitemaps: Markup := Markup(
    "<?xml version=\"1.0\" encoding=\"UTF-8\"?>\n<urlset xmlns=\"http://www.sitemaps.org/schemas/sitemap/0.9\">\n",
    "</urlset>",
    "  <url>\n    <loc>",
    "</loc>\n    <lastmod>",
    "</lastmod>\n    <changefreq>",
    "</changefreq>\n    <priority>",
    "</priority>\n  </url>\n")

  /** A closing text starts with a tag, so it cannot be mistaken for field text. */
  predicate IsClose(close: string) {
    |close| > 0 && close[0] == '<'
  }

  /**
   What reading a document back relies on: every text after a field starts
   with a tag, and a block does not start the way the document's end does.
   */
  predicate Delimited(m: Markup) {
    IsClose(m.locToLastmod) && IsClose(m.lastmodToChangefreq) && IsClose(m.changefreqToPriority)
    && IsClose(m.closeUrl) && |m.openLoc| > 0 && |m.footer| > 0 && m.openLoc[0] != m.footer[0]
  }

  lemma SitemapsDelimited()
    ensures Delimited(Sitemaps)
  {
  }

  /** The `<url>` block of `e` followed by the text `tail`. */
  function RenderEntry(m: Markup, e: Entry, tail: string): string {
    m.openLoc + Interleave(Fields(e), Closes(m), tail)
  }

  /** The fields of a block in document order. */
  function Fields(e: Entry): seq<string> {
    [e.loc, e.lastmod, e.changefreq, e.priority]
  }

  /** The text after each field of a block, in document order. */
  function Closes(m: Markup): seq<string> {
    [m.locToLastmod, m.lastmodToChangefreq, m.changefreqToPriority, m.closeUrl]
  }

  /** Each field followed by its closing text, and then `tail`. */
  function Interleave(fields: seq<string>, closes: seq<string>, tail: string): string
    requires |fields| == |closes|
    decreases |fields|
  {
    if |fields| == 0 then tail else fields[0] + (closes[0] + Interleave(fields[1..], closes[1..], tail))
  }

  /** The blocks of `es`, in order, followed by the text `tail`. */
  function RenderEntries(m: Markup, es: seq<Entry>, tail: string): string
    decreases |es|
  {
    if |es| == 0 then tail else RenderEntry(m, es[0], RenderEntries(m, es[1..], tail))
  }

  /** The whole document: declaration and `urlset` start tag, the blocks, `</urlset>`. */
  function Render(m: Markup, es: seq<Entry>): string {
    m.header + RenderEntries(m, es, m.footer)
  }

  /** A block rendered on its own and then followed by `tail` is the block before `tail`. */
  lemma RenderEntryThen(m: Markup, e: Entry, tail: string)
    ensures RenderEntry(m, e, "") + tail == RenderEntry(m, e, tail)
  {
    InterleaveThen(Fields(e), Closes(m), tail);
  }

  lemma {:induction false} InterleaveThen(fields: seq<string>, closes: seq<string>, tail: string)
    requires |fields| == |closes|
    ensures Interleave(fields, closes, "") + tail == Interleave(fields, closes, tail)
    ensures |Interleave(fields, closes, tail)| >= |tail|
    decreases |fields|
  {
    if |fields| > 0 {
      InterleaveThen(fields[1..], closes[1..], tail);
    }
  }

  lemma {:induction false} RenderEntriesThen(m: Markup, es: seq<Entry>, tail: string)
    ensures RenderEntries(m, es, "") + tail == RenderEntries(m, es, tail)
    decreases |es|
  {
    if |es| > 0 {
      RenderEntriesThen(m, es[1..], tail);
      RenderEntryThen(m, es[0], RenderEntries(m, es[1..], ""));
      RenderEntryThen(m, es[0], RenderEntries(m, es[1..], tail));
    }
  }

  lemma {:induction false} RenderEntriesSplit(m: Markup, es: seq<Entry>, more: seq<Entry>, tail: string)
    ensures RenderEntries(m, es + more, tail) == RenderEntries(m, es, RenderEntries(m, more, tail))
    decreases |es|
  {
    if |es| == 0 {
      assert es + more == more;
    } else {
      assert (es + more)[1..] == es[1..] + more;
      RenderEntriesSplit(m, es[1..], more, tail);
    }
  }

  // ---------------------------------------------------------------------
  // The two scripts, written as the loops they are.
  // ---------------------------------------------------------------------

  /** The blog-URL loop of either script over the listed names. */
  method CollectBlogUrls(script: Script, base: string, names: seq<string>) returns (urls: seq<string>)
    ensures |urls| == |JsonNames(names)|
    ensures forall i :: 0 <= i < |urls| ==> urls[i] == BlogUrl(base, Slug(script, JsonNames(names)[i]))
  {
    urls := [];
    var i := 0;
    while i < |names|
      invariant 0 <= i <= |names|
      invariant urls == BlogUrls(script, base, names[..i])
    {
      BlogUrlsStep(script, base, names, i);
      if EndsWith(names[i], JsonSuffix) {
        urls := urls + [BlogUrl(base, Slug(script, names[i]))];
      }
      i := i + 1;
    }
    assert names[..i] == names;
  }

  /** The blog URLs of one more listed name. */
  lemma BlogUrlsStep(script: Script, base: string, names: seq<string>, i: nat)
    requires i < |names|
    ensures BlogUrls(script, base, names[..i + 1]) ==
      BlogUrls(script, base, names[..i]) + (if EndsWith(names[i], JsonSuffix) then [BlogUrl(base, Slug(script, names[i]))] else [])
  {
    BlogUrlsAppend(script, base, names[..i], names[i]);
    assert names[..i + 1] == names[..i] + [names[i]];
  }

  lemma {:induction false} BlogUrlsAppend(script: Script, base: string, names: seq<string>, name: string)
    ensures BlogUrls(script, base, names + [name]) ==
      BlogUrls(script, base, names) + (if EndsWith(name, JsonSuffix) then [BlogUrl(base, Slug(script, name))] else [])
    decreases |names|
  {
    if |names| == 0 {
      assert names + [name] == [name];
      assert [name][1..] == [];
    } else {
      assert (names + [name])[1..] == names[1..] + [name];
      BlogUrlsAppend(script, base, names[1..], name);
    }
  }

  /**
   The document loop shared by both scripts: the header and the static
   blocks, one block per URL, the footer.
   */
  method AssembleXml(m: Markup, statics: seq<Entry>, urls: seq<string>, today: string) returns (xml: string)
    ensures xml == Render(m, statics + BlogEntries(urls, today))
  {
    var all := statics + BlogEntries(urls, today);
    xml := m.header + RenderEntries(m, statics, "");
    RenderPrefix(m, statics, BlogEntries(urls, today));
    assert urls[0..] == urls;
    var j := 0;
    while j < |urls|
      invariant 0 <= j <= |urls|
      invariant xml + RenderEntries(m, BlogEntries(urls[j..], today), m.footer) == Render(m, all)
    {
      RenderBlogStep(m, urls, j, today, m.footer);
      xml := xml + RenderEntry(m, BlogEntry(urls[j], today), "");
      j := j + 1;
    }
    assert BlogEntries(urls[j..], today) == [];
    xml := xml + m.footer;
  }

  /** The document is its header and first blocks, followed by the text of the later blocks and the footer. */
  lemma RenderPrefix(m: Markup, es: seq<Entry>, more: seq<Entry>)
    ensures (m.header + RenderEntries(m, es, "")) + RenderEntries(m, more, m.footer) == Render(m, es + more)
  {
    RenderEntriesSplit(m, es, more, m.footer);
    RenderEntriesThen(m, es, RenderEntries(m, more, m.footer));
  }

  /** Rendering the blog entries from position `j` on is the block of URL `j` and then the rest. */
  lemma RenderBlogStep(m: Markup, urls: seq<string>, j: nat, today: string, tail: string)
    requires j < |urls|
    ensures RenderEntries(m, BlogEntries(urls[j..], today), tail)
      == RenderEntry(m, BlogEntry(urls[j], today), "") + RenderEntries(m, BlogEntries(urls[j + 1..], today), tail)
  {
    var e := BlogEntry(urls[j], today);
    var later := BlogEntries(urls[j + 1..], today);
    assert BlogEntries(urls[j..], today) == [e] + later;
    RenderEntriesCons(m, e, later, tail);
    RenderEntryThen(m, e, RenderEntries(m, later, tail));
  }

  /**
   `update_sitemap()`: a missing directory gives no blog URLs; an unreadable
   one (or an output path that cannot be written) raises an uncaught
   exception, which ends the interpreter with status 1.
   */
  method UpdateSitemapPython(listing: Listing, today: string, writable: bool)
    returns (out: Outcome)
    ensures out.Written? <==> listing != Unreadable && writable
    ensures out.Aborted? ==> out.status == 1
    ensures out.Written? ==> out.xml == Render(Sitemaps, Entries(Python, BaseUrl, today, ListedNames(listing)))
    ensures out.Written? ==> out.blogCount == |JsonNames(ListedNames(listing))| && !out.reportedMissing
  {
    var urls: seq<string> := [];
    match listing {
      case Unreadable =>
        return Aborted(1);
      case Missing =>
      case Present(names) =>
        urls := CollectBlogUrls(Python, BaseUrl, names);
    }
    assert urls == BlogUrls(Python, BaseUrl, ListedNames(listing));
    var xml := AssembleXml(Sitemaps, StaticEntries(Python, BaseUrl, today), urls, today);
    if !writable {
      return Aborted(1);
    }
    out := Written(xml, |urls|, false);
  }

  /**
   `updateSitemap()`: a missing directory is logged and gives no blog URLs;
   any error thrown inside the `try` (an unreadable directory, an output
   file that cannot be written) is caught and ends the process with status 1.
   */
  method UpdateSitemapJs(listing: Listing, today: string, writable: bool)
    returns (out: Outcome)
    ensures out.Written? <==> listing != Unreadable && writable
    ensures out.Aborted? ==> out.status == 1
    ensures out.Written? ==> out.xml == Render(Sitemaps, Entries(JavaScript, BaseUrl, today, ListedNames(listing)))
    ensures out.Written? ==> out.blogCount == |JsonNames(ListedNames(listing))|
    ensures out.Written? ==> (out.reportedMissing <==> listing == Missing)
  {
    var urls: seq<string> := [];
    var missing := false;
    match listing {
      case Unreadable =>
        return Aborted(1);
      case Missing =>
        missing := true;
      case Present(names) =>
        urls := CollectBlogUrls(JavaScript, BaseUrl, names);
    }
    assert urls == BlogUrls(JavaScript, BaseUrl, ListedNames(listing));
    var xml := AssembleXml(Sitemaps, StaticEntries(JavaScript, BaseUrl, today), urls, today);
    if !writable {
      return Aborted(1);
    }
    out := Written(xml, |urls|, missing);
  }

  // ---------------------------------------------------------------------
  // Reading a document back: the parser is the partner of `Render`.
  // ---------------------------------------------------------------------

  /** The length of the text before the first `<` (all of `s` when there is none). */
  function TextLength(s: string): (k: nat)
    ensures k <= |s|
    ensures '<' !in s[..k]
    ensures k < |s| ==> s[k] == '<'
    decreases |s|
  {
    if |s| == 0 || s[0] == '<' then 0 else 1 + TextLength(s[1..])
  }

  /** Reads element text up to the next tag and then the literal `close`. */
  function ReadField(s: string, close: string): (r: Option<(string, string)>)
    ensures r.Some? ==> s == r.value.0 + (close + r.value.1) && '<' !in r.value.0
  {
    var k := TextLength(s);
    if StartsWith(s[k..], close) then
      assert s == s[..k] + (close + s[k + |close|..]);
      Some((s[..k], s[k + |close|..]))
    else
      None
  }

  lemma ReadFieldOf(field: string, close: string, rest: string)
    requires '<' !in field
    requires IsClose(close)
    ensures ReadField(field + (close + rest), close) == Some((field, rest))
  {
    var s := field + (close + rest);
    TextLengthOf(field, close + rest);
    assert s[..|field|] == field;
    assert s[|field|..] == close + rest;
    assert s[|field| + |close|..] == rest;
  }

  lemma {:induction false} TextLengthOf(field: string, rest: string)
    requires '<' !in field
    requires |rest| > 0 && rest[0] == '<'
    ensures TextLength(field + rest) == |field|
    decreases |field|
  {
    if |field| > 0 {
      assert (field + rest)[1..] == field[1..] + rest;
      TextLengthOf(field[1..], rest);
    }
  }

  /** Reads one `<url>` block; what is left of the text is returned with it. */
  function ParseEntry(m: Markup, s: string): (r: Option<(Entry, string)>)
    ensures r.Some? ==> s == RenderEntry(m, r.value.0, r.value.1)
  {
    if !StartsWith(s, m.openLoc) then
      None
    else
      var s0 := s[|m.openLoc|..];
      assert s == m.openLoc + s0;
      var read := ReadFields(s0, Closes(m));
      if read.None? then
        None
      else
        var fs := read.value.0;
        var e := Entry(fs[0], fs[1], fs[2], fs[3]);
        assert Fields(e) == fs;
        Some((e, read.value.1))
  }

  /** Reads one field for each closing text in `closes`, in order; returns the fields and the rest. */
  function ReadFields(s: string, closes: seq<string>): (r: Option<(seq<string>, string)>)
    ensures r.Some? ==> |r.value.0| == |closes| && s == Interleave(r.value.0, closes, r.value.1)
    decreases |closes|
  {
    if |closes| == 0 then
      Some(([], s))
    else
      var first := ReadField(s, closes[0]);
      if first.None? then None else
      var more := ReadFields(first.value.1, closes[1..]);
      if more.None? then None else
      var fields := [first.value.0] + more.value.0;
      assert fields[1..] == more.value.0;
      Some((fields, more.value.1))
  }

  /** Reads `<url>` blocks until the closing `</urlset>`, which must end the text. */
  function ParseEntries(m: Markup, s: string): (r: Option<seq<Entry>>)
    requires Delimited(m)
    ensures r.Some? ==> s == RenderEntries(m, r.value, m.footer)
    decreases |s|
  {
    if s == m.footer then
      Some([])
    else
      var head := ParseEntry(m, s);
      if head.None? then
        None
      else
        var e, rest := head.value.0, head.value.1;
        RenderEntryLonger(m, e, rest);
        var tail := ParseEntries(m, rest);
        if tail.None? then
          None
        else
          RenderEntriesCons(m, e, tail.value, m.footer);
          Some([e] + tail.value)
  }

  lemma RenderEntryLonger(m: Markup, e: Entry, rest: string)
    requires |m.openLoc| > 0
    ensures |RenderEntry(m, e, rest)| > |rest|
  {
    InterleaveThen(Fields(e), Closes(m), rest);
  }

  lemma RenderEntriesCons(m: Markup, e: Entry, es: seq<Entry>, tail: string)
    ensures RenderEntries(m, [e] + es, tail) == RenderEntry(m, e, RenderEntries(m, es, tail))
  {
    assert ([e] + es)[1..] == es;
  }

  /** Reads a whole sitemap document back into its entries. */
  function ParseDocument(m: Markup, xml: string): (r: Option<seq<Entry>>)
    requires Delimited(m)
    ensures r.Some? ==> xml == Render(m, r.value)
  {
    if !StartsWith(xml, m.header) then
      None
    else
      var body := xml[|m.header|..];
      assert xml == m.header + body;
      ParseEntries(m, body)
  }

  /** Text that can stand inside an element without being taken for markup. */
  predicate PlainEntry(e: Entry) {
    '<' !in e.loc && '<' !in e.lastmod && '<' !in e.changefreq && '<' !in e.priority
  }

  predicate AllPlain(es: seq<Entry>) {
    forall i :: 0 <= i < |es| ==> PlainEntry(es[i])
  }

  lemma ParseEntryOf(m: Markup, e: Entry, rest: string)
    requires Delimited(m)
    requires PlainEntry(e)
    ensures ParseEntry(m, RenderEntry(m, e, rest)) == Some((e, rest))
  {
    StartsWithThen(m.openLoc, Interleave(Fields(e), Closes(m), rest));
    ReadFieldsOf(Fields(e), Closes(m), rest);
  }

  lemma {:induction false} ReadFieldsOf(fields: seq<string>, closes: seq<string>, rest: string)
    requires |fields| == |closes|
    requires forall i :: 0 <= i < |fields| ==> '<' !in fields[i] && IsClose(closes[i])
    ensures ReadFields(Interleave(fields, closes, rest), closes) == Some((fields, rest))
    decreases |fields|
  {
    if |fields| > 0 {
      var later := Interleave(fields[1..], closes[1..], rest);
      ReadFieldOf(fields[0], closes[0], later);
      ReadFieldsOf(fields[1..], closes[1..], rest);
      assert [fields[0]] + fields[1..] == fields;
    }
  }

  lemma StartsWithThen(p: string, t: string)
    ensures StartsWith(p + t, p) && (p + t)[|p|..] == t
  {
    assert (p + t)[..|p|] == p;
  }

  lemma BlockIsNotFooter(m: Markup, e: Entry, rest: string)
    requires Delimited(m)
    ensures RenderEntry(m, e, rest) != m.footer
  {
    assert RenderEntry(m, e, rest)[0] == m.openLoc[0];
  }

  lemma ParseEntriesStep(m: Markup, e: Entry, rest: string, es: seq<Entry>)
    requires Delimited(m)
    requires PlainEntry(e)
    requires ParseEntries(m, rest) == Some(es)
    ensures ParseEntries(m, RenderEntry(m, e, rest)) == Some([e] + es)
  {
    BlockIsNotFooter(m, e, rest);
    ParseEntryOf(m, e, rest);
  }

  lemma {:induction false} ParseEntriesOf(m: Markup, es: seq<Entry>)
    requires Delimited(m)
    requires AllPlain(es)
    ensures ParseEntries(m, RenderEntries(m, es, m.footer)) == Some(es)
    decreases |es|
  {
    if |es| > 0 {
      ParseEntriesOf(m, es[1..]);
      ParseEntriesStep(m, es[0], RenderEntries(m, es[1..], m.footer), es[1..]);
      assert [es[0]] + es[1..] == es;
    }
  }

  /** Every document rendered from plain entries reads back as exactly those entries. */
  lemma RenderParse(m: Markup, es: seq<Entry>)
    requires Delimited(m)
    requires AllPlain(es)
    ensures ParseDocument(m, Render(m, es)) == Some(es)
  {
    var xml := Render(m, es);
    assert xml[..|m.header|] == m.header;
    assert xml[|m.header|..] == RenderEntries(m, es, m.footer);
    ParseEntriesOf(m, es);
  }

  /** A slug is cut out of its file name, so it holds no `<` when the name holds none. */
  lemma SlugIsPlain(script: Script, name: string)
    requires EndsWith(name, JsonSuffix)
    requires '<' !in name
    ensures '<' !in Slug(script, name)
  {
    if script == JavaScript {
      JsSlugIsPlain(name);
    }
  }

  lemma JsSlugIsPlain(name: string)
    requires EndsWith(name, JsonSuffix)
    requires '<' !in name
    ensures '<' !in JsSlug(name)
  {
    assert OccursAt(name, JsonSuffix, |name| - 5);
    var i := FindFirst(name, JsonSuffix).value;
    assert JsSlug(name) == name[..i] + name[i + 5..];
    CutIsPlain(name, i, i + 5);
  }

  lemma CutIsPlain(s: string, i: nat, j: nat)
    requires i <= j <= |s| && '<' !in s
    ensures '<' !in s[..i] + s[j..]
  {
    forall k | 0 <= k < |s[..i] + s[j..]|
      ensures (s[..i] + s[j..])[k] != '<'
    {
      if k < i {
        assert (s[..i] + s[j..])[k] == s[k];
      } else {
        assert (s[..i] + s[j..])[k] == s[k - i + j];
      }
    }
  }

  /**
   What either script writes reads back as its entries: the static pages
   and then one weekly block of priority 0.7 per `.json` file, provided the
   date and the file names hold no `<`.
   */
  lemma SitemapReadsBack(script: Script, listing: Listing, today: string)
    requires '<' !in today
    requires forall n :: n in ListedNames(listing) ==> '<' !in n
    ensures var es := Entries(script, BaseUrl, today, ListedNames(listing));
      ParseDocument(Sitemaps, Render(Sitemaps, es)) == Some(es)
  {
    var names := ListedNames(listing);
    var statics := StaticEntries(script, BaseUrl, today);
    var blogs := BlogEntries(BlogUrls(script, BaseUrl, names), today);
    StaticsArePlain(script, today);
    BlogEntriesArePlain(script, names, today);
    AppendPlain(statics, blogs);
    SitemapsDelimited();
    RenderParse(Sitemaps, statics + blogs);
  }

  lemma StaticsArePlain(script: Script, today: string)
    requires '<' !in today
    ensures AllPlain(StaticEntries(script, BaseUrl, today))
  {
    PlainText(BaseUrl);
    PlainText("/");
    PlainText("/blog");
    PlainText("/privacy-policy");
    PlainText("/terms-conditions");
    PlainText("/refund-policy");
    PlainText("daily");
    PlainText("monthly");
    PlainText("1.0");
    PlainText("0.9");
    PlainText("0.3");
  }

  /** Checks character by character that a text holds no `<`. */
  lemma {:induction false} PlainText(s: string)
    requires forall i :: 0 <= i < |s| ==> s[i] != '<'
    ensures '<' !in s
  {
  }

  lemma BlogEntriesArePlain(script: Script, names: seq<string>, today: string)
    requires '<' !in today
    requires forall n :: n in names ==> '<' !in n
    ensures AllPlain(BlogEntries(BlogUrls(script, BaseUrl, names), today))
  {
    var urls := BlogUrls(script, BaseUrl, names);
    forall i | 0 <= i < |urls|
      ensures PlainEntry(BlogEntries(urls, today)[i])
    {
      var name := JsonNames(names)[i];
      SlugIsPlain(script, name);
      BlogUrlIsPlain(Slug(script, name));
      BlogEntryIsPlain(urls[i], today);
    }
  }

  lemma BlogUrlIsPlain(slug: string)
    requires '<' !in slug
    ensures '<' !in BlogUrl(BaseUrl, slug)
  {
    assert '<' !in BaseUrl + "/blog/";
  }

  lemma BlogEntryIsPlain(url: string, today: string)
    requires '<' !in url && '<' !in today
    ensures PlainEntry(BlogEntry(url, today))
  {
  }

  lemma AppendPlain(a: seq<Entry>, b: seq<Entry>)
    requires AllPlain(a) && AllPlain(b)
    ensures AllPlain(a + b)
  {
    forall i | 0 <= i < |a + b|
      ensures PlainEntry((a + b)[i])
    {
      if i >= |a| {
        assert (a + b)[i] == b[i - |a|];
      }
    }
  }
}
