/**
 How the home page (src/pages/Index.tsx) decides what to show when it
 loads, and what it keeps in local storage between visits.

 On load, a shared reading in the URL wins: the `v` parameter (a share
 link) or, failing that, the older `data` parameter. If neither names a
 reading, or reading it throws, the page falls back to the session saved
 under `numerology_session`, and failing that to the empty landing page.
 Whenever a reading exists, the page state is written back to storage;
 starting over clears it.

 `JSON.parse` of the `data` parameter is the parameter `parseJson`, which
 also stands for the `new Date` the page applies to its `d` field; the
 saved session is given already parsed (`Slot`). The local calendar of a
 time value is the parameter `calendar`, as in the numerology engine.
 */
module Session {
  import opened Strings
  import opened Decimal
  import opened Base64
  import opened Percent
  import opened Url
  import opened Numerology
  import opened ShareLink

  datatype AppState = Landing | Preview

  /** The largest time value, in milliseconds either side of the epoch, that a `Date` can hold. */
  const MaxTime: int := 8_640_000_000_000_000

  /** True of the birth dates a `Date` object can hold: an invalid date, or a time value in range. */
  predicate InRange(dob: Dob) {
    dob.Valid? ==> -MaxTime <= dob.ms <= MaxTime
  }

  /** `new Date(x)` for a number `x`, where `None` is `NaN`: out-of-range values give an invalid date. */
  function DateOf(t: Option<int>): (d: Dob)
    ensures InRange(d)
    ensures d.Valid? <==> t.Some? && -MaxTime <= t.value <= MaxTime
    ensures d.Valid? ==> d.ms == t.value
  {
    if t.Some? && -MaxTime <= t.value <= MaxTime then Valid(t.value) else InvalidDate
  }

  /** What a shared link names: the name, the birth date and whether the report is unlocked. */
  datatype Shared = Shared(name: string, dob: Dob, unlocked: bool)

  /** `decodeURIComponent(atob(v))`; `None` where either throws. */
  function VText(v: string): Option<string> {
    match Atob(v)
    case None => None
    case Some(t) => DecodeURIComponent(t)
  }

  /**
   `const [n, d, u] = text.split("|")`, then `parseInt(d)`, `new Date(...)`
   and `u === "1"`. A missing `d` is `undefined`, which `parseInt` reads as
   the text "undefined".
   */
  function ReadPayload(text: string): (r: Shared)
    ensures r.name == Before(text, '|')
    ensures InRange(r.dob)
    ensures '|' !in text ==> r == Shared(text, InvalidDate, false)
  {
    var parts := Split(text, '|');
    var d := if |parts| > 1 then parts[1] else "undefined";
    assert |parts| <= 1 ==> ParseInt(d) == None by {
      if |parts| <= 1 {
        ParseIntOfNonDigit(d);
      }
    }
    Shared(parts[0], DateOf(ParseInt(d)), |parts| > 2 && parts[2] == "1")
  }

  /**
   The payload read from the end: the last two fields are the time value
   and the flag, and everything before them, `|` included, is the name.
   Shorter texts are read as before.
   */
  function ReadPayloadFixed(text: string): (r: Shared)
    ensures InRange(r.dob)
    ensures |Split(text, '|')| < 3 ==> r == ReadPayload(text)
  {
    var parts := Split(text, '|');
    if |parts| >= 3 then
      Shared(Join(parts[..|parts| - 2], '|'), DateOf(ParseInt(parts[|parts| - 2])), parts[|parts| - 1] == "1")
    else
      ReadPayload(text)
  }

  /** The few JSON values the `data` parameter's fields are tested against. */
  datatype Json = JStr(s: string) | JNum(n: int) | JBool(b: bool) | JNull | JOther

  /** The fields `n`, `d` and `u` of the parsed `data` parameter; `None` is a missing field. */
  datatype LegacyData = LegacyData(n: Option<Json>, d: Dob, u: Option<Json>)

  /**
   `JSON.parse(atob(data))` and its fields. Only a string `n` gives a name:
   a missing or falsy `n` skips the URL, and any other `n` makes the
   reading throw, which skips it as well. `u === true || u === 1` unlocks.
   */
  function ReadLegacy(data: string, parseJson: string -> Option<LegacyData>): (r: Option<Shared>)
    ensures r.Some? <==> Atob(data).Some? && parseJson(Atob(data).value).Some?
                         && parseJson(Atob(data).value).value.n.Some? && parseJson(Atob(data).value).value.n.value.JStr?
    ensures r.Some? ==> r.value.name == parseJson(Atob(data).value).value.n.value.s
    ensures r.Some? ==> r.value.dob == parseJson(Atob(data).value).value.d
    ensures r.Some? ==> (r.value.unlocked <==> parseJson(Atob(data).value).value.u in {Some(JBool(true)), Some(JNum(1))})
  {
    match Atob(data)
    case None => None
    case Some(t) =>
      match parseJson(t)
      case None => None
      case Some(l) =>
        if l.n.Some? && l.n.value.JStr? then
          Some(Shared(l.n.value.s, l.d, l.u == Some(JBool(true)) || l.u == Some(JNum(1))))
        else
          None
  }

  /** A query value is truthy when present and not empty. */
  predicate Truthy(v: Option<string>) {
    v.Some? && |v.value| > 0
  }

  /**
   The reading the URL names, if any: `v` when truthy (read by `read`),
   else `data` when truthy. `None` when neither is there or reading throws.
   */
  function FromQuery(query: string, parseJson: string -> Option<LegacyData>, read: string -> Shared): (r: Option<Shared>)
    ensures !Truthy(QueryGet(query, "v")) && !Truthy(QueryGet(query, "data")) ==> r.None?
    ensures Truthy(QueryGet(query, "v")) ==>
      r == (if VText(QueryGet(query, "v").value).Some? then Some(read(VText(QueryGet(query, "v").value).value)) else None)
    ensures !Truthy(QueryGet(query, "v")) && Truthy(QueryGet(query, "data")) ==>
      r == ReadLegacy(QueryGet(query, "data").value, parseJson)
  {
    var v := QueryGet(query, "v");
    var data := QueryGet(query, "data");
    if Truthy(v) then
      match VText(v.value)
      case None => None
      case Some(t) => Some(read(t))
    else if Truthy(data) then
      ReadLegacy(data.value, parseJson)
    else
      None
  }

  /** The session saved under `numerology_session`. A missing `state` reads as the landing page. */
  datatype StoredSession = StoredSession(reading: Option<Reading>, unlocked: bool, state: Option<AppState>)

  /** The storage slot: nothing (or an empty string), text `JSON.parse` refuses, or a saved session. */
  datatype Slot = Empty | Corrupt | Saved(session: StoredSession)

  /** What the page starts with. */
  datatype Initial = Initial(state: AppState, reading: Option<Reading>, unlocked: bool, fromUrl: bool)

  const Default: Initial := Initial(Landing, None, false, false)

  /** The saved session if it holds a reading, else the landing page. */
  function FromStorage(slot: Slot): (init: Initial)
    ensures !init.fromUrl
    ensures init.reading.Some? <==> slot.Saved? && slot.session.reading.Some?
    ensures init.reading.None? ==> init == Default
  {
    if slot.Saved? && slot.session.reading.Some? then
      var s := slot.session;
      Initial(if s.state.Some? then s.state.value else Landing, s.reading, s.unlocked, false)
    else
      Default
  }

  /** `getInitialData`, with the payload of `v` read by `read`. */
  function Restore(hasWindow: bool, href: string, parseJson: string -> Option<LegacyData>, slot: Slot,
                   calendar: int -> CivilDate, read: string -> Shared): (init: Initial)
    ensures !hasWindow ==> init == Default
    ensures init.fromUrl <==> hasWindow && FromQuery(Query(href), parseJson, read).Some? && FromQuery(Query(href), parseJson, read).value.name != ""
    ensures init.fromUrl ==> init.state == Preview && init.reading.Some?
    ensures init.fromUrl ==> init.reading == Some(GenerateReading(FromQuery(Query(href), parseJson, read).value.name,
                                                                  FromQuery(Query(href), parseJson, read).value.dob, calendar))
    ensures init.fromUrl ==> init.unlocked == FromQuery(Query(href), parseJson, read).value.unlocked
    ensures hasWindow && !init.fromUrl ==> init == FromStorage(slot)
  {
    if !hasWindow then
      Default
    else
      var shared := FromQuery(Query(href), parseJson, read);
      if shared.Some? && shared.value.name != "" then
        var sh := shared.value;
        Initial(Preview, Some(GenerateReading(sh.name, sh.dob, calendar)), sh.unlocked, true)
      else
        FromStorage(slot)
  }

  /** `getInitialData` as written. */
  function GetInitialData(hasWindow: bool, href: string, parseJson: string -> Option<LegacyData>, slot: Slot,
                          calendar: int -> CivilDate): (init: Initial)
    ensures init == Restore(hasWindow, href, parseJson, slot, calendar, ReadPayload)
    ensures init.fromUrl ==> init.reading.Some? && init.reading.value.name != ""
    ensures init.fromUrl && Truthy(QueryGet(Query(href), "v")) ==> '|' !in init.reading.value.name
  {
    NameFromVHasNoPipe(Query(href), parseJson);
    Restore(hasWindow, href, parseJson, slot, calendar, ReadPayload)
  }

  /** A name the reader as written takes from `v` holds no `|`. */
  lemma NameFromVHasNoPipe(query: string, parseJson: string -> Option<LegacyData>)
    ensures Truthy(QueryGet(query, "v")) && FromQuery(query, parseJson, ReadPayload).Some? ==>
      '|' !in FromQuery(query, parseJson, ReadPayload).value.name
  {
  }

  /** `getInitialData` with the payload of `v` read from the end, so that a name may hold `|`. */
  function GetInitialDataFixed(hasWindow: bool, href: string, parseJson: string -> Option<LegacyData>, slot: Slot,
                               calendar: int -> CivilDate): (init: Initial)
    ensures !Truthy(QueryGet(Query(href), "v")) ==> init == GetInitialData(hasWindow, href, parseJson, slot, calendar)
    ensures init.fromUrl ==> init.state == Preview && init.reading.Some? && init.reading.value.name != ""
    ensures hasWindow && !init.fromUrl ==> init == FromStorage(slot)
  {
    Restore(hasWindow, href, parseJson, slot, calendar, ReadPayloadFixed)
  }

  /** The persistence effect: with a reading, the page state replaces the saved session; without one, nothing is written. */
  function Persist(state: AppState, reading: Option<Reading>, unlocked: bool, slot: Slot): (s: Slot)
    ensures reading.None? ==> s == slot
    ensures reading.Some? ==> s.Saved? && s.session.reading == reading
  {
    if reading.Some? then Saved(StoredSession(reading, unlocked, Some(state))) else slot
  }

  /** `handleReset`: the saved session is removed, whatever it held, and the page returns to an empty landing page. */
  function Reset(): (r: (Initial, Slot))
    ensures r.0.state == Landing && r.0.reading.None? && !r.0.unlocked
    ensures r.1 == Empty
  {
    (Default, Empty)
  }

  // ---------------------------------------------------------------------
  // Properties
  // ---------------------------------------------------------------------

  /**
   A `data` parameter made by `btoa` of a JSON text reads back as that
   text's fields: the string `n` as the name, `d` as the birth date, and
   the report unlocked exactly when `u` is `true` or `1`.
   */
  lemma LegacyReadsBack(json: string, parseJson: string -> Option<LegacyData>, l: LegacyData)
    requires IsLatin1(json)
    requires parseJson(json) == Some(l) && l.n.Some? && l.n.value.JStr?
    ensures ReadLegacy(Btoa(json).value, parseJson) == Some(Shared(l.n.value.s, l.d, l.u in {Some(JBool(true)), Some(JNum(1))}))
  {
    AtobBtoa(json);
  }

  /** A reading named by the URL wins over whatever storage holds. */
  lemma UrlBeatsStorage(href: string, parseJson: string -> Option<LegacyData>, slot1: Slot, slot2: Slot,
                        calendar: int -> CivilDate, read: string -> Shared)
    requires FromQuery(Query(href), parseJson, read).Some? && FromQuery(Query(href), parseJson, read).value.name != ""
    ensures Restore(true, href, parseJson, slot1, calendar, read) == Restore(true, href, parseJson, slot2, calendar, read)
    ensures Restore(true, href, parseJson, slot1, calendar, read).fromUrl
  {
  }

  /** Without a reading in the URL, what was persisted is what the next load restores. */
  lemma PersistThenRestore(state: AppState, r: Reading, unlocked: bool, slot: Slot, href: string,
                           parseJson: string -> Option<LegacyData>, calendar: int -> CivilDate)
    requires !Truthy(QueryGet(Query(href), "v")) && !Truthy(QueryGet(Query(href), "data"))
    ensures GetInitialData(true, href, parseJson, Persist(state, Some(r), unlocked, slot), calendar)
         == Initial(state, Some(r), unlocked, false)
  {
  }

  /** After a reset, the persistence effect writes nothing, and the next load without a shared reading is the landing page. */
  lemma ResetThenRestore(href: string, parseJson: string -> Option<LegacyData>, calendar: int -> CivilDate)
    requires !Truthy(QueryGet(Query(href), "v")) && !Truthy(QueryGet(Query(href), "data"))
    ensures var (init, cleared) := Reset();
            var after := Persist(init.state, init.reading, init.unlocked, cleared);
            after == Empty && GetInitialData(true, href, parseJson, after, calendar) == Default
  {
  }

  // ---------------------------------------------------------------------
  // The share link, end to end
  // ---------------------------------------------------------------------

  lemma ParseDobText(dob: Dob)
    requires InRange(dob)
    ensures DateOf(ParseInt(DobText(dob))) == dob
  {
    match dob
    case Valid(ms) =>
      ParseIntToString(ms);
    case InvalidDate =>
      ParseIntOfNonDigit(DobText(dob));
  }

  /** A name without `|` is read back whole by the reader as written. */
  lemma ReadPayloadOf(name: string, dob: Dob, unlocked: bool)
    requires '|' !in name && InRange(dob)
    ensures ReadPayload(Payload(name, dob, unlocked)) == Shared(name, dob, unlocked)
  {
    PayloadFields(name, dob, unlocked);
    ParseDobText(dob);
  }

  /** Any name is read back whole by the reader that reads from the end. */
  lemma ReadPayloadFixedOf(name: string, dob: Dob, unlocked: bool)
    requires InRange(dob)
    ensures ReadPayloadFixed(Payload(name, dob, unlocked)) == Shared(name, dob, unlocked)
  {
    PayloadFields(name, dob, unlocked);
    var parts := Split(Payload(name, dob, unlocked), '|');
    var front := Split(name, '|');
    assert parts[..|parts| - 2] == front;
    JoinSplit(name, '|');
    ParseDobText(dob);
  }

  /**
   A name holding `|` is cut at its first `|` by the reader as written, so
   the reading restored is not the one shared.
   */
  lemma PipeInNameIsCut(a: string, b: string, dob: Dob, unlocked: bool)
    requires '|' !in a
    ensures ReadPayload(Payload(a + "|" + b, dob, unlocked)).name == a
    ensures ReadPayload(Payload(a + "|" + b, dob, unlocked)) != Shared(a + "|" + b, dob, unlocked)
  {
    var name := a + "|" + b;
    PayloadFields(name, dob, unlocked);
    assert name == a + ['|'] + b;
    SplitFirst(a, '|', b);
    assert |name| > |a|;
  }

  /** The `v` value of the corrected link reads back as the payload it was made from. */
  lemma VTextOfFixedLink(origin: string, pathname: string, r: Reading, unlocked: bool)
    requires '?' !in origin + pathname && '#' !in origin + pathname
    ensures QueryGet(Query(ShareUrlFixed(origin, pathname, Some(r), unlocked)), "v").Some?
    ensures VText(QueryGet(Query(ShareUrlFixed(origin, pathname, Some(r), unlocked)), "v").value)
         == Some(Payload(r.name, r.dob, unlocked))
  {
    ShareUrlFixedCarries(origin, pathname, r, unlocked);
    var e := EncodedData(Payload(r.name, r.dob, unlocked));
    DecodeEncode(Payload(r.name, r.dob, unlocked));
    assert Atob(e) == Some(EncodeURIComponent(Payload(r.name, r.dob, unlocked)));
  }

  /** The `v` value is never empty. */
  lemma DataIsNotEmpty(payload: string)
    requires |payload| > 0
    ensures |EncodedData(payload)| > 0 && |FormDecode(EncodedData(payload))| > 0
  {
    var t := EncodeURIComponent(payload);
    UnpaddedLength(Bytes(t));
    FormDecodeNotEmpty(EncodedData(payload));
  }

  /**
   The corrected link, opened with the corrected reader, restores the
   reading it was made from, whatever the name holds and whatever storage
   holds.
   */
  lemma ShareLinkRestores(origin: string, pathname: string, name: string, dob: Dob, unlocked: bool,
                          parseJson: string -> Option<LegacyData>, slot: Slot, calendar: int -> CivilDate)
    requires '?' !in origin + pathname && '#' !in origin + pathname
    requires name != "" && InRange(dob)
    ensures GetInitialDataFixed(true, ShareUrlFixed(origin, pathname, Some(GenerateReading(name, dob, calendar)), unlocked), parseJson, slot, calendar)
         == Initial(Preview, Some(GenerateReading(name, dob, calendar)), unlocked, true)
  {
    var r := GenerateReading(name, dob, calendar);
    var href := ShareUrlFixed(origin, pathname, Some(r), unlocked);
    VTextOfFixedLink(origin, pathname, r, unlocked);
    ShareUrlFixedCarries(origin, pathname, r, unlocked);
    DataIsNotEmpty(Payload(name, dob, unlocked));
    ReadPayloadFixedOf(name, dob, unlocked);
    assert FromQuery(Query(href), parseJson, ReadPayloadFixed) == Some(Shared(name, dob, unlocked));
  }

  /**
   A link as written whose `v` value `atob` refuses once the query parser
   has read it is not restored: the page falls back to storage.
   */
  lemma RefusedLinkFallsBack(origin: string, pathname: string, name: string, dob: Dob, unlocked: bool,
                             parseJson: string -> Option<LegacyData>, slot: Slot, calendar: int -> CivilDate)
    requires '?' !in origin + pathname && '#' !in origin + pathname
    requires name != ""
    requires Atob(FormDecode(EncodedData(Payload(name, dob, unlocked)))) == None
    ensures GetInitialData(true, ShareUrl(origin, pathname, Some(GenerateReading(name, dob, calendar)), unlocked), parseJson, slot, calendar)
         == FromStorage(slot)
  {
    var r := GenerateReading(name, dob, calendar);
    var href := ShareUrl(origin, pathname, Some(r), unlocked);
    ShareUrlCarries(origin, pathname, r, unlocked);
    DataIsNotEmpty(Payload(name, dob, unlocked));
    assert VText(QueryGet(Query(href), "v").value) == None;
  }

  /**
   The link as written, for the name `ab~`, birth time value 0 and a locked
   report, is such a link.
   */
  lemma ShareLinkIsLost(name: string, origin: string, pathname: string, parseJson: string -> Option<LegacyData>, slot: Slot,
                        calendar: int -> CivilDate)
    requires name == "ab~"
    requires '?' !in origin + pathname && '#' !in origin + pathname
    ensures GetInitialData(true, ShareUrl(origin, pathname, Some(GenerateReading(name, Valid(0), calendar)), false), parseJson, slot, calendar)
         == FromStorage(slot)
  {
    ExampleLinkIsLost();
    RefusedLinkFallsBack(origin, pathname, name, Valid(0), false, parseJson, slot, calendar);
  }
}
