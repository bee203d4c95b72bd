# Numero-app in Dafny

A model of the logic at the heart of Numero-app, a numerology web app, together with proofs about it. It covers three things.

**The numerology engine** (`src/lib/numerology.ts`)
- The Pythagorean letter table (a..i, j..r and s..z each count 1..9).
- The reduction of a number to a single digit or a master number (11, 22, 33).
- The Life Path number, computed from the digits of day, month and year of a birth date.
- The Expression, Soul Urge and Personality numbers, computed from all letters, the vowels and the consonants of a name.
- The lucky numbers and the lucky colour.
- The trait lookups, which fall back to the entry for 9.
- The assembled reading.

**The two sitemap generators** (`scripts/update_sitemap.py` and `scripts/generate-sitemap.js`)
- Both keep the `.json` files of the blog directory, turn each into a `/blog/<slug>` URL, and write a sitemaps.org 0.9 document.
- The document holds the static pages first, then one weekly block per post.
- The Python and JavaScript versions differ in their slug rule, their static pages and their error handling. Both behaviours are modelled, and their divergence is proved.

**The share link and session restore**
- The share link itself (`src/components/ResultPreview.tsx`).
  - The payload `name|time|flag`.
  - `encodeURIComponent` (UTF-8 percent-encoding), then `btoa` (base64, section 4 of RFC 4648).
  - The report slug.
  - The URL.
- Page load (`src/pages/Index.tsx`) decides between three sources, in this order:
  - the `v` parameter;
  - the older `data` parameter;
  - the session saved in local storage, and failing that the landing page.
- How the page persists and clears that session.
- Reading the link back goes through the browser's parsers, which are modelled concretely:
  - `location.search`;
  - `URLSearchParams.get`, following the application/x-www-form-urlencoded parser of the WHATWG URL Standard;
  - `atob`, following the forgiving-base64 decode of the WHATWG Infra Standard;
  - `decodeURIComponent` and `parseInt`.

Modules, one file each:

| file | module | contents |
|---|---|---|
| `strings.dfy` | `Strings` | `Option`, prefixes, split/join, trim, ASCII lower-casing |
| `decimal.dfy` | `Decimal` | `String(n)`, `parseInt`, digit sums |
| `seqs.dfy` | `Seqs` | `[...new Set(xs)]` as `Distinct` |
| `numerology.dfy` | `Numerology` | the engine |
| `sitemap.dfy` | `Sitemap` | both generators and a parser for their output |
| `percent.dfy` | `Percent` | `encodeURIComponent` / `decodeURIComponent` |
| `base64.dfy` | `Base64` | `btoa` / `atob` |
| `url.dfy` | `Url` | `location.search` and `URLSearchParams.get` |
| `sharelink.dfy` | `ShareLink` | the share URL, both as written and corrected |
| `session.dfy` | `Session` | `getInitialData`, persistence and reset |

Parameters stand for what the code reads from outside:
- The sitemap scripts take the directory listing, today's date and whether the output can be written.
- The local time zone is a `calendar` function from a time value to the year, month and day.
- `typeof window` is `hasWindow`.
- The stored session arrives already parsed, as `Slot`.
- `JSON.parse` of the legacy `data` parameter is `parseJson`.

The two sitemap scripts do not agree. `scripts/update_sitemap.py` writes five static pages and cuts the trailing `.json` off a file name. `scripts/generate-sitemap.js` writes two static pages and replaces the first `.json` in the name. `Sitemap.SlugsDiverge` gives a name where the two slugs differ.

## Model

| member | source | states |
|---|---|---|
| Numerology.LetterMapIsPythagorean | src/lib/numerology.ts:4-8 | exactly the letters a..z have a value, and the value of the k-th letter is k mod 9 + 1 |
| Numerology.Reduce | src/lib/numerology.ts:13-20 | the result is 0..9 or a master number; a number already in that range comes back unchanged; the result keeps the input's remainder mod 9 and is 0 only for 0; if the result is not a master number, it is the digital root |
| Decimal.DigitSumCongruent | src/lib/numerology.ts:16 | the digit sum of `String(n)` keeps `n` modulo 9 |
| Decimal.DigitSumStep | src/lib/numerology.ts:16 | the digit sum of a number of two or more digits is the digit sum of all but its last digit, plus that digit |
| Numerology.ReduceIdempotent | src/lib/numerology.ts:13-20 | reducing twice gives the same as reducing once |
| Numerology.LetterValue | src/lib/numerology.ts:4-8 | a character counts 1..9 when it is a lower-case ASCII letter and 0 otherwise |
| Numerology.Tally | src/lib/numerology.ts:38-39 | a sum over lower-cased text is at most 9 per character |
| Numerology.TallyAppend | src/lib/numerology.ts:38-39 | the sum over two texts put together is the sum of the two sums |
| Numerology.LowerChar | src/lib/numerology.ts:37 | the lower-case form of a character starts with a letter a..z exactly when the character is an ASCII letter, the Kelvin sign or capital I with dot above, and holds no other letter a..z |
| Numerology.LowerNameOfAscii | src/lib/numerology.ts:37 | for a name without those two special characters, lower-casing is plain ASCII lower-casing |
| Numerology.RawSumStep | src/lib/numerology.ts:37-39 | each character of a name adds the sum of its own lower-case form |
| Numerology.LowerCharCounts | src/lib/numerology.ts:37-39 | a character adds to the letter sum exactly when it lower-cases to a letter a..z |
| Numerology.TallyPartition | src/lib/numerology.ts:10 | the letter sum of any text is its vowel sum plus its consonant sum (y counts as a consonant) |
| Numerology.RawSumZeroIffNoLetters | src/lib/numerology.ts:36-39 | the letter sum of a name is 0 exactly when no character of the name lower-cases to a letter a..z |
| Numerology.CaseInsensitive | src/lib/numerology.ts:37-38 | two names whose characters lower-case alike have the same letter, vowel and consonant sums |
| Numerology.ExpressionNumber | src/lib/numerology.ts:36-41 | the Expression number is reduced, agrees with the letter sum mod 9, and is 0 exactly when no character of the name lower-cases to a..z: no ASCII letter of either case, no Kelvin sign, no capital I with dot above |
| Numerology.KelvinSignCounts | src/lib/numerology.ts:37-40 | the name made of the Kelvin sign alone has Expression number 2, the value of k |
| Numerology.SoulUrgeNumber | src/lib/numerology.ts:44-49 | the Soul Urge number is reduced and agrees with the vowel sum mod 9 |
| Numerology.PersonalityNumber | src/lib/numerology.ts:52-57 | the Personality number is reduced and agrees with the consonant sum mod 9 |
| Numerology.ExpressionSplits | src/lib/numerology.ts:36-57 | the raw Expression sum is the Soul Urge sum plus the Personality sum, so the Expression number agrees with their sum mod 9 |
| Numerology.LifePathOfDate | src/lib/numerology.ts:23-33 | for a year of 0 or later, the Life Path is reduced and congruent mod 9 to day + month + year; for a negative year (its `-` sign makes `parseInt` give NaN) it is NaN |
| Numerology.LifePathNumber | src/lib/numerology.ts:23-33 | an Invalid Date gives NaN; a valid date gives the Life Path of its local calendar date |
| Numerology.LuckyCandidates | src/lib/numerology.ts:61-64 | four candidates led by the Life Path; for NaN all four are NaN; otherwise the other three are reduced and congruent mod 9 to 2lp, lp+3 and 3lp |
| Seqs.Distinct | src/lib/numerology.ts:65 | `[...new Set(s)]` holds exactly the values of `s`, without duplicates, no more of them than `s`, led by the first element |
| Numerology.LuckyNumbers | src/lib/numerology.ts:60-66 | 1 to 4 numbers with no duplicates, led by the Life Path; they are exactly the candidates lp, r(2lp), r(lp+3), r(3lp); NaN gives just [NaN] |
| Numerology.LuckyNumbersOrder | src/lib/numerology.ts:65 | the lucky numbers keep the order in which the candidates first occur |
| Numerology.TableKey | src/lib/numerology.ts:84 | the key a lookup uses is the number itself when the table has it (1..9, 11, 22, 33) and 9 otherwise, including for 0 and NaN |
| Numerology.ColorTableKeys | src/lib/numerology.ts:70-83 | the colour table has exactly the keys 1..9, 11, 22 and 33 |
| Numerology.LuckyColor | src/lib/numerology.ts:69-85 | a number the table has gets its own colour; any other number gets Gold `#D97706` |
| Numerology.Traits | src/lib/numerology.ts:167-168 | a trait lookup uses the number's own entry when it exists and the entry for 9 otherwise |
| Numerology.GenerateReading | src/lib/numerology.ts:244-264 | the reading keeps name and date unchanged; the Life Path, Expression, Soul Urge and Personality numbers are those of their calculators, and are reduced; each traits entry is taken from that number's own table (Life Path, Expression, Soul Urge, Personality) under the number's key, with 9 standing in for 0 and NaN; the lucky numbers are those of the Life Path and lead with it, and so is the colour; the Life Path is NaN exactly for an Invalid Date or a negative year |
| Numerology.ReadingNumbersAgree | src/lib/numerology.ts:244-264 | in every reading, Expression is congruent to Soul Urge plus Personality mod 9 |
| Numerology.NumbersAgree | src/lib/numerology.ts:36-57 | any reading whose name numbers come from their calculators has Expression congruent to Soul Urge plus Personality mod 9 |
| Sitemap.PySlug | scripts/update_sitemap.py:14-15 | the Python slug followed by `.json` is the file name |
| Sitemap.JsSlug | scripts/generate-sitemap.js:19-20 | the JavaScript slug is five characters shorter than the file name |
| Sitemap.Slug | scripts/update_sitemap.py:14-15 | under either script the slug is five characters shorter than the file name, and under Python the slug followed by `.json` is the file name |
| Sitemap.SlugsAgree | scripts/generate-sitemap.js:20 | when `.json` occurs only at the end of the name, the two slugs are equal |
| Sitemap.SlugsDiverge | scripts/generate-sitemap.js:20 | for `a.json.b.json` the Python slug is `a.json.b` and the JavaScript slug is `a.b.json` |
| Sitemap.JsonNames | scripts/update_sitemap.py:13-14 | the kept names are exactly the listed names ending in `.json` |
| Sitemap.JsonNamesAppend | scripts/update_sitemap.py:13-14 | filtering keeps listing order |
| Sitemap.BlogUrls | scripts/update_sitemap.py:13-16 | one URL `base/blog/<slug>` per kept name, in listing order |
| Sitemap.CollectBlogUrls | scripts/generate-sitemap.js:15-23 | the loop collects exactly those URLs, in order |
| Sitemap.StaticEntries | scripts/update_sitemap.py:18-50 | Python writes five static pages and JavaScript two |
| Sitemap.JsStaticsArePythonPrefix | scripts/generate-sitemap.js:30-44 | the JavaScript static pages are the first two of Python's (home and blog, both daily), without the policy pages |
| Sitemap.BlogEntries | scripts/update_sitemap.py:52-58 | each blog URL becomes one weekly entry of priority 0.7 stamped with today's date, in order |
| Sitemap.Entries | scripts/update_sitemap.py:18-58 | a sitemap's entries are the static pages first, then one blog entry per blog URL, in order |
| Sitemap.AssembleXml | scripts/generate-sitemap.js:30-55 | the string built by appending block after block is the rendered document of the static and blog entries |
| Sitemap.UpdateSitemapPython | scripts/update_sitemap.py:4-65 | the sitemap is written unless listing or writing fails, in which case the run exits with status 1; the document has the five static pages and then the blog entries; the reported count is the number of blog URLs; a missing directory gives no blog URLs |
| Sitemap.UpdateSitemapJs | scripts/generate-sitemap.js:4-62 | the same for the JavaScript script with its own slugs and two static pages; a missing directory is reported as such |
| Sitemap.ParseDocument | scripts/update_sitemap.py:18-60 | a document the parser accepts is exactly the rendering of the entries it returns |
| Sitemap.RenderParse | scripts/update_sitemap.py:18-60 | rendering entries free of `<` and parsing the result gives the entries back |
| Sitemap.SitemapReadsBack | scripts/update_sitemap.py:18-60 | what either script writes parses back as its static entries followed by its blog entries, when the date and the names hold no `<` |
| Percent.EncodeURIComponent | src/components/ResultPreview.tsx:105 | the output consists only of unreserved characters and `%XX` escapes, and is at least as long as the input |
| Percent.DecodeEncode | src/pages/Index.tsx:126 | `decodeURIComponent` reads back what `encodeURIComponent` wrote, for every string |
| Percent.DecodeURIComponent | src/pages/Index.tsx:126 | a decoded text is no longer than the encoded one |
| Percent.DecodePlain | src/pages/Index.tsx:126 | text without `%` decodes to itself |
| Base64.Btoa | src/components/ResultPreview.tsx:105 | `btoa` succeeds exactly on Latin-1 text and never shortens it |
| Base64.Encode | src/components/ResultPreview.tsx:105 | the base64 text has a length divisible by 4 |
| Base64.AtobBtoa | src/pages/Index.tsx:126 | `atob` of `btoa(s)` gives `s` back for every Latin-1 `s` |
| Base64.Atob | src/pages/Index.tsx:126 | what `atob` returns is Latin-1 text, one character per byte |
| Url.Lookup | src/pages/Index.tsx:115-117 | a found value belongs to the first non-empty piece with that name, as `URLSearchParams.get` returns; nothing is found exactly when no non-empty piece has that name |
| Url.FormDecode | src/pages/Index.tsx:115-116 | decoding a query value never lengthens it |
| Url.FormDecodePlain | src/pages/Index.tsx:115-116 | a query value without `+` or `%` decodes to itself |
| Url.QueryOfShape | src/pages/Index.tsx:115 | `location.search` of `base?<head>&<more>` starts with `<head>&` and stops at the fragment |
| Url.FormDecodeEncode | src/pages/Index.tsx:115-116 | the query parser reads back what `encodeURIComponent` wrote, for ASCII text |
| Url.QueryGetFirst | src/pages/Index.tsx:115-116 | in a URL `base?v=<text>&...`, the `v` parameter is the form-decoded `<text>` |
| ShareLink.DobText | src/components/ResultPreview.tsx:104 | the time field is non-empty and holds no `\|` |
| ShareLink.PayloadFields | src/components/ResultPreview.tsx:104 | splitting the payload at `\|` gives the pieces of the name, then the time value, then the flag |
| Decimal.IntToString | src/components/ResultPreview.tsx:104 | `String(i)` is non-empty and starts with `-` exactly when `i` is negative |
| Decimal.ParseIntToString | src/pages/Index.tsx:129 | `parseInt(String(i))` is `i` for every integer |
| Decimal.ParseIntOfNonDigit | src/pages/Index.tsx:129 | text that starts with neither white space, a sign nor a digit parses to `NaN` |
| ShareLink.EncodedData | src/components/ResultPreview.tsx:105 | the `v` text is what `btoa` gives for the encoded payload (it never throws), `atob` gives the encoded payload back, and it holds only base64 characters |
| ShareLink.Collapse | src/components/ResultPreview.tsx:106 | the result holds no whitespace, leaves whitespace-free text unchanged and never grows |
| ShareLink.CollapseRun | src/components/ResultPreview.tsx:106 | a whole run of white space, after text free of it, becomes exactly one `-`, and collapsing carries on after the run |
| ShareLink.SlugIdempotent | src/components/ResultPreview.tsx:106 | the report slug holds no whitespace, and slugging a slug changes nothing |
| ShareLink.SlugKeepsLetters | src/components/ResultPreview.tsx:106 | the slug keeps every character of the trimmed, lower-cased name other than whitespace and `-`, in order |
| ShareLink.Slug | src/components/ResultPreview.tsx:106 | the slug holds no white space and is no longer than the trimmed name |
| ShareLink.SlugEnds | src/components/ResultPreview.tsx:106 | the slug is empty exactly when the trimmed name is; otherwise its first and last characters are those of the trimmed, lower-cased name, so neither end is a `-` standing for white space |
| ShareLink.LinkCarries | src/components/ResultPreview.tsx:107 | in a link built from a page address without `?` or `#` and data without `&` or `#`, the `v` parameter as the page reads it is the form-decoded data, whatever the slug holds |
| ShareLink.ShareUrl | src/components/ResultPreview.tsx:99-111 | the share URL is empty exactly when there is no reading |
| ShareLink.ShareUrlCarries | src/components/ResultPreview.tsx:104-107 | the `v` parameter of the share URL, as the page reads it, is the form-decoded base64 text, not the base64 text itself |
| ShareLink.ExampleLinkIsLost | src/components/ResultPreview.tsx:105-107 | for the name `ab~`, time value 0 and a locked report, `atob` refuses the `v` parameter the page reads |
| ShareLink.ShareUrlFixed | src/components/ResultPreview.tsx:99-111 | the corrected share URL is empty exactly when there is no reading |
| ShareLink.ShareUrlFixedCarries | src/components/ResultPreview.tsx:104-107 | the `v` parameter of the corrected URL, as the page reads it, is exactly the base64 text |
| Session.DateOf | src/pages/Index.tsx:129 | `new Date(parseInt(d))` is valid exactly when the number parses and lies within ±8.64e15 ms, and then holds that number |
| Session.ReadPayload | src/pages/Index.tsx:125-130 | the name read is the text before the first `\|`, the date is one a `Date` can hold, and text without `\|` reads as that name with an Invalid Date, locked |
| Session.VTextOfFixedLink | src/pages/Index.tsx:126 | `decodeURIComponent(atob(v))` of the corrected link's `v` is the payload the link was made from |
| Session.ReadLegacy | src/pages/Index.tsx:131-135 | `data` gives a reading exactly when `atob` and `JSON.parse` succeed and `n` is a string; the name is then `n`, the date is `d`, and the report is unlocked exactly when `u` is `true` or `1` |
| Session.LegacyReadsBack | src/pages/Index.tsx:131-135 | a `data` parameter made by `btoa` of a JSON text with a string `n` reads back as that text's name, date and flag |
| Session.FromQuery | src/pages/Index.tsx:114-136 | no truthy `v` and no truthy `data` gives nothing; a truthy `v` is read by decoding it, even when `data` is present; without a truthy `v`, a truthy `data` is read by the legacy reader |
| Session.FromStorage | src/pages/Index.tsx:151-169 | storage gives a reading exactly when a parsed session holds one; otherwise the page starts as the empty landing page |
| Session.Restore | src/pages/Index.tsx:111-170 | without a window, the default; a URL reading is used exactly when it names a non-empty name, and then opens the preview of the reading generated from that name and date, with the URL's unlocked flag; otherwise storage decides |
| Session.GetInitialData | src/pages/Index.tsx:111-170 | the page load as written is the restore with the `\|`-splitting reader; a URL reading has a non-empty name, and one taken from `v` has no `\|` in it |
| Session.Persist | src/pages/Index.tsx:213-221 | with a reading, the page state replaces the saved session; without one, storage is left alone |
| Session.Reset | src/pages/Index.tsx:237-245 | whatever the slot held, reset empties it and gives the landing page with no reading, locked |
| Session.UrlBeatsStorage | src/pages/Index.tsx:114-149 | a URL reading with a non-empty name makes the outcome independent of storage |
| Session.PersistThenRestore | src/pages/Index.tsx:151-163 | without a reading in the URL, the next load restores exactly the state, reading and flag that were persisted |
| Session.ResetThenRestore | src/pages/Index.tsx:237-245 | after reset, persistence writes nothing and the next load without a URL reading is the landing page |
| Session.ReadPayloadOf | src/pages/Index.tsx:125-130 | for a name without `\|` and a valid or invalid date, the reader as written returns the shared name, date and flag, negative time values included |
| Session.PipeInNameIsCut | src/pages/Index.tsx:127-128 | a name holding `\|` is read back only up to its first `\|`, so the restored reading differs from the shared one |
| Session.ReadPayloadFixed | src/pages/Index.tsx:125-130 | the corrected reader: it keeps the dates a `Date` can hold, and agrees with the reader as written on every payload with fewer than three `\|`-separated fields |
| Session.ReadPayloadFixedOf | src/pages/Index.tsx:125-130 | the corrected reader returns the shared name, date and flag for every name |
| Session.GetInitialDataFixed | src/pages/Index.tsx:111-170 | the corrected loader: without a truthy `v` it is the page load as written; a URL reading opens the preview with a non-empty name; otherwise storage decides |
| Session.ShareLinkRestores | src/pages/Index.tsx:111-145 | opening the corrected link with the corrected reader shows the preview of the reading the link was made from, with its flag, whatever storage holds |
| Session.RefusedLinkFallsBack | src/pages/Index.tsx:119-148 | a link whose `v` parameter `atob` refuses falls back to storage |
| Session.ShareLinkIsLost | src/pages/Index.tsx:119-148 | the link as written for `ab~`, time value 0 and a locked report does not restore the reading, and the page falls back to storage |

## Left out

- Rendering, effects and timers: `replaceState`, the toast, scrolling, the carousel and the dark-mode class.
- PDF export: it wraps html2canvas and jsPDF.
- Payments, the currency context and translation: network calls and foreign libraries.
- Symbols used alongside the engine but defined elsewhere (`generateFreeReportFromDob` and the like). They are not part of this model.
- Strings are sequences of Unicode scalar values, not UTF-16 code units.
  - A name with a lone surrogate would make `encodeURIComponent` throw, so the share URL would fall back to the current address. For a reading the app generated itself, that is the only way the `catch` of the share URL can be reached, so the model has no such branch.
  - In the engine, `toLowerCase` is modelled as far as the letter table can see: ASCII letters, the Kelvin sign (to `k`) and capital I with dot above (to `i` and U+0307) are the only characters whose lower-case form holds a letter a..z. Every other character is kept as it is, since its lower-case form counts 0 in every sum.
- Url.QueryGet: bytes from `%XX` escapes of 0x80 and above become the characters U+0080..U+00FF instead of being read as UTF-8. Every value read goes on to `atob`, which refuses both forms.
- Session.ReadLegacy: `JSON.parse` and `new Date(decoded.d)` are the parameter `parseJson`. The JSON grammar and date-string parsing are not modelled.
- Session.FromStorage: a saved reading is restored from storage without checking its fields. One whose `name` is not a string would make `reading.name.trim()` in the share URL throw, so the share URL would fall back to the current address. In the model a reading's name is always a string, so that case does not arise.
- Session.FromStorage: the stored session is given already parsed. `JSON.stringify` turns the `NaN` numbers of a reading and an Invalid Date into `null`, so a reading built from an Invalid Date does not come back unchanged from storage. The model does not track this conversion.
- Session.Restore: the local time zone is the `calendar` parameter. The time value a shared link carries is exact, but the Life Path it gives depends on the zone of the browser that opens it.
- Sitemap.UpdateSitemapPython: the log lines and the printed count are modelled as the `blogCount` and `reportedMissing` fields, not as text. The file write is the `writable` flag.
- ShareLink.ShareUrl: the browser's serialisation of the URL is not modelled. That serialisation percent-encodes characters of the slug such as non-ASCII letters.
- ShareLink.Slug: lower-cases ASCII letters only. Other upper-case letters, the Kelvin sign and capital I with dot above included, stay as they are in the slug. The slug is not read back by the page.

## Findings

| source | as written | input that shows it | evidently intended | confidence | as-written member | corrected member |
|---|---|---|---|---|---|---|
| src/components/ResultPreview.tsx:105-107 | the base64 text goes into the query unescaped, and `URLSearchParams` reads a `+` there as a space, which `atob` strips; the padding `=` then lands at a length that is not a multiple of 4, and `atob` throws | name `ab~`, time value 0, locked: the base64 text is `YWJ+JTdDMCU3QzA=` | opening a share link shows the shared reading | not executed; high | Session.ShareLinkIsLost | Session.ShareLinkRestores |
| src/pages/Index.tsx:127-128 | the decoded payload is split at every `\|` and the first piece is taken as the name | name `a\|b`: read back as name `a`, with the time field `b`, which gives an Invalid Date | the reader recovers the name that was shared | not executed; medium | Session.PipeInNameIsCut | Session.ReadPayloadFixedOf |

The first row is corrected by `ShareLink.ShareUrlFixed`, which applies `encodeURIComponent` to the base64 text. The second is corrected by `Session.ReadPayloadFixed`, which takes the last two fields as time and flag and joins the rest back into the name. `Session.ShareLinkRestores` proves the two corrections together: every shared reading reopens unchanged.
