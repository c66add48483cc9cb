/**
 * The iCalendar export of the server (server/controller.ts): a non-empty
 * list of (catalog uid, JST wall-clock start) picks is checked against the
 * catalog and turned into one VCALENDAR document with a VEVENT per pick,
 * either a REQUEST with CONFIRMED events or a CANCEL with CANCELLED ones
 * (RFC 5546 section 3.2). Request fields are the integers the date-parsing
 * library reads from them; the server clock is a parameter.
 */
module CalendarExport {
  import opened Wrappers
  import opened Text
  import opened Civil

  // ---------------------------------------------------------------------
  // Constants and request data
  // ---------------------------------------------------------------------

  const EventsFileName: string := "sanrio-vfes-events.ics"
  const CancelEventsFileName: string := "sanrio-vfes-events-cancel.ics"

  /** The attachment name of the document for the given mode. */
  function FileName(isCancellation: bool): string {
    if isCancellation then CancelEventsFileName else EventsFileName
  }

  /** The create and the cancel documents are offered under different names. */
  lemma FileNamesDistinct()
    ensures FileName(true) != FileName(false)
  {
    assert FileName(true)[|FileName(false)| - 4] == '-';
  }

  /** The catalog fields the document uses; optional ones may be missing. */
  datatype CatalogEvent = CatalogEvent(
    uid: string,
    title: string,
    platform: seq<string>,
    timeSlotMinutes: int,
    floor: Option<string>,
    locationName: Option<string>,
    description: Option<string>,
    path: Option<string>)

  /** One element of the request body: a catalog uid and its JST start. */
  datatype CalendarEvent = CalendarEvent(uid: string, startDateTime: DateTime)

  /** What a handler answers: the document as an attachment, or a JSON error with a status. */
  datatype Response = IcsFile(content: string, fileName: string) | ErrorJson(status: int, error: string)

  const InvalidEventData: string := "不正なイベントデータです"
  const InvalidTimeValue: string := "Invalid time value"

  function NotFoundMessage(uid: string): string {
    "イベントが見つかりません: " + uid
  }

  /** `EVENTS.find((e) => e.uid === uid)` */
  function Find(catalog: seq<CatalogEvent>, uid: string): (r: Option<CatalogEvent>)
    ensures r.Some? ==> r.value.uid == uid && r.value in catalog
    ensures r.None? <==> forall k :: 0 <= k < |catalog| ==> catalog[k].uid != uid
  {
    if |catalog| == 0 then None
    else if catalog[0].uid == uid then Some(catalog[0])
    else Find(catalog[1..], uid)
  }

  /** The index of the first pick whose uid is not in the catalog, searching from `from`. */
  function FirstMissingFrom(request: seq<CalendarEvent>, catalog: seq<CatalogEvent>, from: nat): (r: Option<nat>)
    requires from <= |request|
    ensures r.None? <==> forall k :: from <= k < |request| ==> Find(catalog, request[k].uid).Some?
    ensures r.Some? ==> (from <= r.value < |request| && Find(catalog, request[r.value].uid).None?
      && forall k :: from <= k < r.value ==> Find(catalog, request[k].uid).Some?)
    decreases |request| - from
  {
    if from == |request| then None
    else if Find(catalog, request[from].uid).None? then Some(from)
    else FirstMissingFrom(request, catalog, from + 1)
  }

  function FirstMissing(request: seq<CalendarEvent>, catalog: seq<CatalogEvent>): Option<nat> {
    FirstMissingFrom(request, catalog, 0)
  }

  /** The first missing pick is the one the pre-check loop stops at. */
  lemma FirstMissingIs(request: seq<CalendarEvent>, catalog: seq<CatalogEvent>, i: nat)
    requires i < |request| && Find(catalog, request[i].uid).None?
    requires forall k :: 0 <= k < i ==> Find(catalog, request[k].uid).Some?
    ensures FirstMissing(request, catalog) == Some(i)
  {
  }

  // ---------------------------------------------------------------------
  // JST to UTC
  // ---------------------------------------------------------------------

  /** Japan Standard Time is nine hours ahead of UTC. */
  const JstOffsetMinutes: int := 9 * 60

  /**
   * Whether `dateFns.parse` of the fields with "yyyy-MM-dd'T'HH:mm:ss"
   * gives a valid date: a real calendar day, a year from 1 to 9999 (the
   * four-digit year field rejects year 0), an hour below 24 and a minute
   * below 60.
   */
  predicate Parseable(t: DateTime) {
    ValidDateTime(t) && 1 <= t.date.year <= 9999
  }

  /** One element of the `events` list: the catalog event and its UTC start and end minutes, if valid. */
  datatype Entry = Entry(event: CatalogEvent, start: Option<int>, end: Option<int>)

  /** subHours(parse(fields), 9) and addMinutes(start, timeSlotMinutes), as minute offsets. */
  function MakeEntry(event: CatalogEvent, jst: DateTime): (e: Entry)
    ensures e.event == event
    ensures e.start.Some? <==> Parseable(jst)
    ensures e.start.Some? ==> (e.start.value == Minutes(jst) - JstOffsetMinutes
      && e.end == Some(e.start.value + event.timeSlotMinutes))
    ensures e.start.None? ==> e.end.None?
  {
    if Parseable(jst) then
      var start := Minutes(jst) - JstOffsetMinutes;
      Entry(event, Some(start), Some(start + event.timeSlotMinutes))
    else
      Entry(event, None, None)
  }

  /**
   * The first loop of generateICSContent: one entry per pick, in order,
   * or the not-found error of the first unknown uid.
   */
  function Entries(request: seq<CalendarEvent>, catalog: seq<CatalogEvent>): (r: Result<seq<Entry>, string>)
    ensures r.Success? <==> FirstMissing(request, catalog).None?
    ensures r.Failure? ==> r.error == NotFoundMessage(request[FirstMissing(request, catalog).value].uid)
    ensures r.Success? ==> |r.value| == |request| && forall i :: 0 <= i < |request| ==>
      r.value[i] == MakeEntry(Find(catalog, request[i].uid).value, request[i].startDateTime)
  {
    match FirstMissing(request, catalog)
    case Some(i) => Failure(NotFoundMessage(request[i].uid))
    case None =>
      Success(seq(|request|, i requires 0 <= i < |request| =>
        MakeEntry(Find(catalog, request[i].uid).value, request[i].startDateTime)))
  }

  /** generateICSContent's for-loop, pushing one entry per pick. */
  method CollectEntries(request: seq<CalendarEvent>, catalog: seq<CatalogEvent>) returns (r: Result<seq<Entry>, string>)
    ensures r == Entries(request, catalog)
  {
    var events: seq<Entry> := [];
    var i := 0;
    while i < |request|
      invariant 0 <= i <= |request|
      invariant |events| == i
      invariant forall k :: 0 <= k < i ==> (Find(catalog, request[k].uid).Some?
        && events[k] == MakeEntry(Find(catalog, request[k].uid).value, request[k].startDateTime))
    {
      var original := Find(catalog, request[i].uid);
      if original.None? {
        FirstMissingIs(request, catalog, i);
        return Failure(NotFoundMessage(request[i].uid));
      }
      events := events + [MakeEntry(original.value, request[i].startDateTime)];
      i := i + 1;
    }
    r := Success(events);
    assert r.value == Entries(request, catalog).value;
  }

  // ---------------------------------------------------------------------
  // Stamps: yyyyMMdd'T'HHmmss'Z' (RFC 5545 section 3.3.5, UTC form)
  // ---------------------------------------------------------------------

  /** The basic-format UTC date-time of a reading and its seconds. */
  function BasicUtc(t: DateTime, second: int): string
    requires ValidDateTime(t) && 0 <= t.date.year && 0 <= second < 60
  {
    Pad4(t.date.year) + Pad2(t.date.month) + Pad2(t.date.day) + "T"
      + Pad2(t.hour) + Pad2(t.minute) + Pad2(second) + "Z"
  }

  /** Where the fields of a fixed-width stamp sit. */
  lemma StampSlices(y: string, mo: string, d: string, h: string, mi: string, se: string)
    requires |y| == 4 && |mo| == 2 && |d| == 2 && |h| == 2 && |mi| == 2 && |se| == 2
    ensures var s := y + mo + d + "T" + h + mi + se + "Z";
      && |s| == 16 && s[8] == 'T' && s[15] == 'Z'
      && s[0..4] == y && s[4..6] == mo && s[6..8] == d
      && s[9..11] == h && s[11..13] == mi && s[13..15] == se
  {
    var s := y + mo + d + "T" + h + mi + se + "Z";
    assert s[0..4] == y by { assert forall k :: 0 <= k < 4 ==> s[k] == y[k]; }
    assert s[4..6] == mo by { assert forall k :: 4 <= k < 6 ==> s[k] == mo[k - 4]; }
    assert s[6..8] == d by { assert forall k :: 6 <= k < 8 ==> s[k] == d[k - 6]; }
    assert s[9..11] == h by { assert forall k :: 9 <= k < 11 ==> s[k] == h[k - 9]; }
    assert s[11..13] == mi by { assert forall k :: 11 <= k < 13 ==> s[k] == mi[k - 11]; }
    assert s[13..15] == se by { assert forall k :: 13 <= k < 15 ==> s[k] == se[k - 13]; }
  }

  /** The stamp is sixteen characters: four-digit year, then month, day, T, hour, minute, second, Z. */
  lemma BasicUtcLayout(t: DateTime, second: int)
    requires ValidDateTime(t) && 0 <= t.date.year <= 9999 && 0 <= second < 60
    ensures var s := BasicUtc(t, second);
      && |s| == 16 && s[8] == 'T' && s[15] == 'Z'
      && AllDigits(s[0..4]) && DigitsValue(s[0..4]) == t.date.year
      && AllDigits(s[4..6]) && DigitsValue(s[4..6]) == t.date.month
      && AllDigits(s[6..8]) && DigitsValue(s[6..8]) == t.date.day
      && AllDigits(s[9..11]) && DigitsValue(s[9..11]) == t.hour
      && AllDigits(s[11..13]) && DigitsValue(s[11..13]) == t.minute
      && AllDigits(s[13..15]) && DigitsValue(s[13..15]) == second
  {
    var y, mo, d := Pad4(t.date.year), Pad2(t.date.month), Pad2(t.date.day);
    var h, mi, se := Pad2(t.hour), Pad2(t.minute), Pad2(second);
    StampSlices(y, mo, d, h, mi, se);
  }

  /** Different readings give different stamps. */
  lemma BasicUtcInjective(t1: DateTime, sec1: int, t2: DateTime, sec2: int)
    requires ValidDateTime(t1) && 0 <= t1.date.year <= 9999 && 0 <= sec1 < 60
    requires ValidDateTime(t2) && 0 <= t2.date.year <= 9999 && 0 <= sec2 < 60
    requires BasicUtc(t1, sec1) == BasicUtc(t2, sec2)
    ensures t1 == t2 && sec1 == sec2
  {
    BasicUtcLayout(t1, sec1);
    BasicUtcLayout(t2, sec2);
  }

  /**
   * DTSTART / DTEND: `format(parse(utc fields), "yyyyMMdd'T'HHmmss'Z'")`.
   * An invalid start, or a UTC year the four-digit parse cannot read
   * back, makes format throw.
   */
  function FormatUtc(minutes: Option<int>): (r: Result<string, string>)
    ensures r.Failure? ==> r.error == InvalidTimeValue
    ensures r.Success? <==> minutes.Some? && 1 <= DateTimeOfMinutes(minutes.value).date.year <= 9999
    ensures r.Success? ==> r.value == BasicUtc(DateTimeOfMinutes(minutes.value), 0)
  {
    match minutes
    case None => Failure(InvalidTimeValue)
    case Some(m) =>
      var t := DateTimeOfMinutes(m);
      if 1 <= t.date.year <= 9999 then Success(BasicUtc(t, 0)) else Failure(InvalidTimeValue)
  }

  /** A formatted start or end reads back as its minute offset: seconds are always 00. */
  lemma FormatUtcInjective(m1: int, m2: int)
    requires FormatUtc(Some(m1)).Success? && FormatUtc(Some(m2)).Success?
    requires FormatUtc(Some(m1)) == FormatUtc(Some(m2))
    ensures m1 == m2
  {
    BasicUtcInjective(DateTimeOfMinutes(m1), 0, DateTimeOfMinutes(m2), 0);
  }

  lemma FormatUtcSeconds(m: int)
    requires FormatUtc(Some(m)).Success?
    ensures FormatUtc(Some(m)).value[13..15] == "00"
  {
    BasicUtcLayout(DateTimeOfMinutes(m), 0);
    TwoDigitZero(FormatUtc(Some(m)).value[13..15]);
  }

  /**
   * DTSTAMP: `new Date().toISOString()` with '-' and ':' removed and the
   * milliseconds cut off, for a clock reading in seconds since
   * 1 January 2024, 00:00 UTC.
   */
  function Now(seconds: nat): (s: string)
    ensures var t := DateTimeOfMinutes(seconds / 60);
      && (0 <= t.date.year <= 9999 ==> s == BasicUtc(t, seconds % 60))
      && (t.date.year > 9999 ==> |s| > 0 && s[0] == '+')
  {
    var t := DateTimeOfMinutes(seconds / 60);
    DateOfDayFromBase(seconds / 60 / MinutesPerDay);
    IsoYear(t.date.year) + Pad2(t.date.month) + Pad2(t.date.day) + "T"
      + Pad2(t.hour) + Pad2(t.minute) + Pad2(seconds % 60) + "Z"
  }

  /**
   * The year as `toISOString` writes it: four digits up to 9999, and from
   * 10000 on a '+' sign and six digits.
   */
  function IsoYear(y: nat): (s: string)
    ensures y <= 9999 ==> s == Pad4(y)
    ensures y > 9999 ==> |s| >= 7 && s[0] == '+'
  {
    if y <= 9999 then Pad4(y) else "+" + PadStart(NatToString(y), 6, '0')
  }

  // ---------------------------------------------------------------------
  // UID, summary and description
  // ---------------------------------------------------------------------

  const UidDomain: string := "@sanrio-vfes-timetable-importer"

  /** generateEventUID */
  function EventUid(uid: string, start: string, end: string): string {
    uid + "-" + start + "_" + end + UidDomain
  }

  /** With fixed-width stamps, the UID determines the catalog uid and both stamps. */
  lemma EventUidInjective(u1: string, s1: string, e1: string, u2: string, s2: string, e2: string)
    requires |s1| == |s2| == |e1| == |e2| == 16
    requires EventUid(u1, s1, e1) == EventUid(u2, s2, e2)
    ensures u1 == u2 && s1 == s2 && e1 == e2
  {
    UidFields(u1, s1, e1, u2, s2, e2, UidDomain);
  }

  /** Fields of fixed width between fixed separators and before a common suffix are recovered. */
  lemma UidFields(u1: string, s1: string, e1: string, u2: string, s2: string, e2: string, suffix: string)
    requires |s1| == |s2| == |e1| == |e2| == 16
    requires u1 + "-" + s1 + "_" + e1 + suffix == u2 + "-" + s2 + "_" + e2 + suffix
    ensures u1 == u2 && s1 == s2 && e1 == e2
  {
    var x1, x2 := u1 + "-" + s1 + "_" + e1 + suffix, u2 + "-" + s2 + "_" + e2 + suffix;
    var n := |u1|;
    assert |u1| == |u2|;
    assert x1 == u1 + ("-" + s1 + "_" + e1 + suffix);
    assert x2 == u2 + ("-" + s2 + "_" + e2 + suffix);
    assert u1 == x1[..n] && u2 == x2[..n];
    assert s1 == x1[n + 1..n + 17] && s2 == x2[n + 1..n + 17];
    assert e1 == x1[n + 18..n + 34] && e2 == x2[n + 18..n + 34];
  }

  /** A JavaScript string is truthy when it is present and not empty. */
  predicate Truthy(o: Option<string>) {
    o.Some? && |o.value| > 0
  }

  /** `${eventData.path}`: a missing path prints as "undefined". */
  function PathText(path: Option<string>): string {
    match path
    case None => "undefined"
    case Some(p) => p
  }

  /** The description text, before escaping. */
  function Description(e: CatalogEvent): string {
    "サンリオVfes2025\nアーティスト名: " + e.title
      + (if Truthy(e.floor) then "\nフロア: " + e.floor.value else "")
      + (if Truthy(e.locationName) then " " + e.locationName.value else "")
      + "\nプラットフォーム: " + Join(e.platform, ", ")
      + (if Truthy(e.description) then "\n\n" + e.description.value else "")
      + "\n\n詳しくは: https://v-fes.sanrio.co.jp" + PathText(e.path)
  }

  /** The SUMMARY value, which `handleIcs` does not escape. */
  function Summary(e: CatalogEvent): string {
    "[サンリオVfes] " + e.title + " [" + Join(e.platform, ", ") + "]"
  }

  /** The description always ends with the detail-page link; without a path the link ends in "undefined". */
  lemma DescriptionEndsWithLink(e: CatalogEvent)
    ensures var link := "\n\n詳しくは: https://v-fes.sanrio.co.jp" + PathText(e.path);
      |Description(e)| >= |link| && Description(e)[|Description(e)| - |link|..] == link
    ensures e.path.None? ==> |Description(e)| >= 9 && Description(e)[|Description(e)| - 9..] == "undefined"
  {
    var link := "\n\n詳しくは: https://v-fes.sanrio.co.jp" + PathText(e.path);
    var front := Description(e)[..|Description(e)| - |link|];
    assert Description(e) == front + link;
  }

  // ---------------------------------------------------------------------
  // Escaping of backslash, ";", "," and newline (RFC 5545 section 3.3.11)
  // ---------------------------------------------------------------------

  /** `s.replace(/c/g, r)` */
  function ReplaceChar(s: string, c: char, r: string): string {
    if |s| == 0 then ""
    else if s[0] == c then r + ReplaceChar(s[1..], c, r)
    else [s[0]] + ReplaceChar(s[1..], c, r)
  }

  lemma {:induction false} ReplaceCharAppend(a: string, b: string, c: char, r: string)
    ensures ReplaceChar(a + b, c, r) == ReplaceChar(a, c, r) + ReplaceChar(b, c, r)
  {
    if |a| > 0 {
      assert (a + b)[1..] == a[1..] + b;
      ReplaceCharAppend(a[1..], b, c, r);
    } else {
      assert a + b == b;
    }
  }

  /** The four chained replacements: backslash first, then ';', ',' and newline. */
  function Escape(s: string): string {
    ReplaceChar(ReplaceChar(ReplaceChar(ReplaceChar(s, '\\', "\\\\"), ';', "\\;"), ',', "\\,"), '\n', "\\n")
  }

  /** The escape sequence of a single character. */
  function EscapeChar(c: char): string {
    if c == '\\' then "\\\\"
    else if c == ';' then "\\;"
    else if c == ',' then "\\,"
    else if c == '\n' then "\\n"
    else [c]
  }

  /** Escaping character by character. */
  function EscapeEach(s: string): string {
    if |s| == 0 then "" else EscapeChar(s[0]) + EscapeEach(s[1..])
  }

  lemma {:induction false} ReplaceCharAbsent(s: string, c: char, r: string)
    requires forall i :: 0 <= i < |s| ==> s[i] != c
    ensures ReplaceChar(s, c, r) == s
  {
    if |s| > 0 {
      ReplaceCharAbsent(s[1..], c, r);
    }
  }

  /** The chained replacements on a single character give its escape sequence. */
  lemma EscapeSingle(c: char)
    ensures Escape([c]) == EscapeChar(c)
  {
    var p1 := ReplaceChar([c], '\\', "\\\\");
    var p2 := ReplaceChar(p1, ';', "\\;");
    var p3 := ReplaceChar(p2, ',', "\\,");
    assert [c][1..] == [];
    if c == '\\' {
      assert p1 == "\\\\" + ReplaceChar([], '\\', "\\\\");
      ReplaceCharAbsent(p1, ';', "\\;");
      ReplaceCharAbsent(p2, ',', "\\,");
      ReplaceCharAbsent(p3, '\n', "\\n");
    } else if c == ';' {
      ReplaceCharAbsent([c], '\\', "\\\\");
      assert p2 == "\\;" + ReplaceChar([], ';', "\\;");
      ReplaceCharAbsent(p2, ',', "\\,");
      ReplaceCharAbsent(p3, '\n', "\\n");
    } else if c == ',' {
      ReplaceCharAbsent([c], '\\', "\\\\");
      ReplaceCharAbsent(p1, ';', "\\;");
      assert p3 == "\\," + ReplaceChar([], ',', "\\,");
      ReplaceCharAbsent(p3, '\n', "\\n");
    } else {
      ReplaceCharAbsent([c], '\\', "\\\\");
      ReplaceCharAbsent(p1, ';', "\\;");
      ReplaceCharAbsent(p2, ',', "\\,");
      if c != '\n' {
        ReplaceCharAbsent(p3, '\n', "\\n");
      } else {
        assert ReplaceChar(p3, '\n', "\\n") == "\\n" + ReplaceChar([], '\n', "\\n");
      }
    }
  }

  lemma EscapeAppend(a: string, b: string)
    ensures Escape(a + b) == Escape(a) + Escape(b)
  {
    ReplaceCharAppend(a, b, '\\', "\\\\");
    var a1, b1 := ReplaceChar(a, '\\', "\\\\"), ReplaceChar(b, '\\', "\\\\");
    ReplaceCharAppend(a1, b1, ';', "\\;");
    var a2, b2 := ReplaceChar(a1, ';', "\\;"), ReplaceChar(b1, ';', "\\;");
    ReplaceCharAppend(a2, b2, ',', "\\,");
    var a3, b3 := ReplaceChar(a2, ',', "\\,"), ReplaceChar(b2, ',', "\\,");
    ReplaceCharAppend(a3, b3, '\n', "\\n");
  }

  /**
   * Because backslashes are doubled first, the chained replacements never
   * touch a backslash that an earlier replacement inserted: they amount to
   * escaping each character on its own.
   */
  lemma {:induction false} EscapeIsEscapeEach(s: string)
    ensures Escape(s) == EscapeEach(s)
  {
    if |s| > 0 {
      assert s == [s[0]] + s[1..];
      EscapeAppend([s[0]], s[1..]);
      EscapeIsEscapeEach(s[1..]);
      EscapeSingle(s[0]);
    }
  }

  /** Reading escape sequences back: `\n` is a newline, `\x` is x. */
  function Unescape(s: string): string {
    if |s| == 0 then ""
    else if s[0] == '\\' && |s| >= 2 then (if s[1] == 'n' then "\n" else [s[1]]) + Unescape(s[2..])
    else [s[0]] + Unescape(s[1..])
  }

  lemma {:induction false} UnescapeEscapeEach(s: string)
    ensures Unescape(EscapeEach(s)) == s
  {
    if |s| > 0 {
      var c, rest := s[0], EscapeEach(s[1..]);
      var x := EscapeChar(c) + rest;
      assert EscapeEach(s) == x;
      UnescapeEscapeEach(s[1..]);
      if c == '\\' || c == ';' || c == ',' || c == '\n' {
        assert x[0] == '\\' && x[2..] == rest;
      } else {
        assert x[0] == c && x[1..] == rest;
      }
      assert Unescape(x) == [c] + s[1..];
    }
  }

  /** Unescaping the escaped description recovers it. */
  lemma UnescapeEscape(s: string)
    ensures Unescape(Escape(s)) == s
  {
    EscapeIsEscapeEach(s);
    UnescapeEscapeEach(s);
  }

  /**
   * A character the escaping leaves as it is: anything but a backslash,
   * ';', ',' or newline. Carriage return and the other control characters
   * are among them, although RFC 5545 TEXT excludes them.
   */
  predicate SafeChar(c: char) {
    c != '\\' && c != ';' && c != ',' && c != '\n'
  }

  /** A string made of safe characters and the escape pairs `\\`, `\;`, `\,` and `\n`. */
  predicate EscapedText(s: string)
    decreases |s|
  {
    if |s| == 0 then true
    else if SafeChar(s[0]) then EscapedText(s[1..])
    else |s| >= 2 && s[0] == '\\' && (s[1] == '\\' || s[1] == ';' || s[1] == ',' || s[1] == 'n') && EscapedText(s[2..])
  }

  lemma {:induction false} EscapeEachIsEscapedText(s: string)
    ensures EscapedText(EscapeEach(s))
  {
    if |s| > 0 {
      EscapeEachIsEscapedText(s[1..]);
      var x := EscapeEach(s);
      if SafeChar(s[0]) {
        assert x[1..] == EscapeEach(s[1..]);
      } else {
        assert x[2..] == EscapeEach(s[1..]);
      }
    }
  }

  lemma {:induction false} EscapedTextHasNoNewline(s: string)
    requires EscapedText(s)
    ensures forall i :: 0 <= i < |s| ==> s[i] != '\n'
    decreases |s|
  {
    if |s| > 0 {
      if SafeChar(s[0]) {
        EscapedTextHasNoNewline(s[1..]);
        assert forall i :: 1 <= i < |s| ==> s[i] == s[1..][i - 1];
      } else {
        EscapedTextHasNoNewline(s[2..]);
        assert forall i :: 2 <= i < |s| ==> s[i] == s[2..][i - 2];
      }
    }
  }

  /**
   * The escaped description is made of characters other than backslash,
   * ';', ',' and newline, and the four escape pairs: it has no raw newline
   * and no bare backslash, ';' or ','.
   */
  lemma EscapeIsEscapedText(s: string)
    ensures EscapedText(Escape(s))
    ensures forall i :: 0 <= i < |Escape(s)| ==> Escape(s)[i] != '\n'
  {
    EscapeIsEscapeEach(s);
    EscapeEachIsEscapedText(s);
    EscapedTextHasNoNewline(Escape(s));
  }

  // ---------------------------------------------------------------------
  // The document (RFC 5545 section 3.4, joined with "\n")
  // ---------------------------------------------------------------------

  function MethodLine(isCancellation: bool): string {
    if isCancellation then "METHOD:CANCEL" else "METHOD:REQUEST"
  }

  function StatusLine(isCancellation: bool): string {
    if isCancellation then "STATUS:CANCELLED" else "STATUS:CONFIRMED"
  }

  function Header(isCancellation: bool): seq<string> {
    ["BEGIN:VCALENDAR", "VERSION:2.0", "PRODID:-//sanrio-vfes-timetable-importer//JP",
     "CALSCALE:GREGORIAN", MethodLine(isCancellation)]
  }

  const Footer: string := "END:VCALENDAR"

  /** The ten lines of a VEVENT, given its formatted start, end and DTSTAMP. */
  function VEventLines(event: CatalogEvent, start: string, end: string, stamp: string, isCancellation: bool): (lines: seq<string>)
    ensures |lines| == 10
  {
    [
      "BEGIN:VEVENT",
      "UID:" + EventUid(event.uid, start, end),
      "DTSTAMP:" + stamp,
      StatusLine(isCancellation),
      "SUMMARY:" + Summary(event),
      "DTSTART:" + start,
      "DTEND:" + end,
      "DESCRIPTION:" + Escape(Description(event)),
      "TRANSP:OPAQUE",
      "END:VEVENT"]
  }

  /** The lines of one VEVENT, or the error that formatting its start or end throws. */
  function EventLines(e: Entry, now: nat, isCancellation: bool): (r: Result<seq<string>, string>)
    ensures r.Failure? ==> r.error == InvalidTimeValue
    ensures r.Success? <==> FormatUtc(e.start).Success? && FormatUtc(e.end).Success?
    ensures r.Success? ==> |r.value| == 10
  {
    var start := FormatUtc(e.start);
    var end := FormatUtc(e.end);
    if start.Failure? then Failure(start.error)
    else if end.Failure? then Failure(end.error)
    else
      Success(VEventLines(e.event, start.value, end.value, Now(now), isCancellation))
  }

  /** The values of a list of results, or the first error among them. */
  function Sequence<T>(rs: seq<Result<T, string>>): (r: Result<seq<T>, string>)
    ensures r.Success? <==> forall i :: 0 <= i < |rs| ==> rs[i].Success?
    ensures r.Failure? ==>
      exists i :: 0 <= i < |rs| && rs[i].Failure? && r.error == rs[i].error && (forall j :: 0 <= j < i ==> rs[j].Success?)
    ensures r.Success? ==> |r.value| == |rs| && forall i :: 0 <= i < |rs| ==> r.value[i] == rs[i].value
  {
    if |rs| == 0 then Success([])
    else
      var rest := Sequence(rs[1..]);
      if rs[0].Failure? then Failure(rs[0].error)
      else if rest.Failure? then Failure(rest.error)
      else
        assert forall i :: 1 <= i < |rs| ==> rs[i] == rs[1..][i - 1];
        Success([rs[0].value] + rest.value)
  }

  /** The lines of every entry, the i-th entry reading the clock as clock(i). */
  function LinesOf(entries: seq<Entry>, clock: nat -> nat, isCancellation: bool): (rs: seq<Result<seq<string>, string>>)
    ensures |rs| == |entries|
    ensures forall i :: 0 <= i < |entries| ==> rs[i] == EventLines(entries[i], clock(i), isCancellation)
  {
    seq(|entries|, i requires 0 <= i < |entries| => EventLines(entries[i], clock(i), isCancellation))
  }

  /** events.map: every entry's lines, or the error the first unformattable entry throws. */
  function Blocks(entries: seq<Entry>, clock: nat -> nat, isCancellation: bool): (r: Result<seq<seq<string>>, string>)
    ensures r.Success? <==> forall i :: 0 <= i < |entries| ==> EventLines(entries[i], clock(i), isCancellation).Success?
    ensures r.Failure? ==> r.error == InvalidTimeValue
  {
    Sequence(LinesOf(entries, clock, isCancellation))
  }

  /** A successful events.map holds the i-th entry's lines at index i. */
  lemma BlocksValues(entries: seq<Entry>, clock: nat -> nat, isCancellation: bool)
    requires Blocks(entries, clock, isCancellation).Success?
    ensures var bs := Blocks(entries, clock, isCancellation).value;
      |bs| == |entries| && forall i :: 0 <= i < |entries| ==>
        bs[i] == EventLines(entries[i], clock(i), isCancellation).value
  {
  }

  /** Every block is ten lines long. */
  lemma BlocksUniform(entries: seq<Entry>, clock: nat -> nat, isCancellation: bool)
    requires Blocks(entries, clock, isCancellation).Success?
    ensures Uniform(Blocks(entries, clock, isCancellation).value, 10)
  {
    var rs := LinesOf(entries, clock, isCancellation);
    var bs := Blocks(entries, clock, isCancellation).value;
    forall i | 0 <= i < |bs| ensures |bs[i]| == 10 {
      assert bs[i] == rs[i].value;
    }
  }

  /** The document text: header, one joined VEVENT per block, footer, joined with "\n". */
  function Document(blocks: seq<seq<string>>, isCancellation: bool): string {
    Join(Header(isCancellation) + seq(|blocks|, i requires 0 <= i < |blocks| => Join(blocks[i], "\n")) + [Footer], "\n")
  }

  /** The document's lines, one after the other. */
  function DocumentLines(blocks: seq<seq<string>>, isCancellation: bool): seq<string> {
    Header(isCancellation) + Flatten(blocks) + [Footer]
  }

  lemma {:induction false} JoinOfJoins(blocks: seq<seq<string>>, sep: string)
    requires |blocks| > 0 && forall i :: 0 <= i < |blocks| ==> |blocks[i]| > 0
    ensures |Flatten(blocks)| > 0
    ensures Join(seq(|blocks|, i requires 0 <= i < |blocks| => Join(blocks[i], sep)), sep) == Join(Flatten(blocks), sep)
  {
    var joined := seq(|blocks|, i requires 0 <= i < |blocks| => Join(blocks[i], sep));
    if |blocks| == 1 {
      assert Flatten(blocks) == blocks[0] + [];
      assert blocks[0] + [] == blocks[0];
    } else {
      var tail := blocks[1..];
      JoinOfJoins(tail, sep);
      var joinedTail := seq(|tail|, i requires 0 <= i < |tail| => Join(tail[i], sep));
      assert joined == [Join(blocks[0], sep)] + joinedTail;
      assert joined[1..] == joinedTail;
      JoinAppend(blocks[0], Flatten(tail), sep);
    }
  }

  /** The document is its lines joined with "\n", and never a line more. */
  lemma DocumentIsLines(blocks: seq<seq<string>>, isCancellation: bool)
    requires forall i :: 0 <= i < |blocks| ==> |blocks[i]| > 0
    ensures Document(blocks, isCancellation) == Join(DocumentLines(blocks, isCancellation), "\n")
  {
    var h := Header(isCancellation);
    var joined := seq(|blocks|, i requires 0 <= i < |blocks| => Join(blocks[i], "\n"));
    if |blocks| == 0 {
      assert joined == [] && Flatten(blocks) == [];
      assert h + joined + [Footer] == h + [Footer];
      assert DocumentLines(blocks, isCancellation) == h + [Footer];
    } else {
      JoinOfJoins(blocks, "\n");
      JoinAppend(h, joined, "\n");
      JoinAppend(h + joined, [Footer], "\n");
      JoinAppend(h, Flatten(blocks), "\n");
      JoinAppend(h + Flatten(blocks), [Footer], "\n");
    }
  }

  /** The lines: the five header lines, ten lines per block, then END:VCALENDAR. */
  lemma DocumentLayout(blocks: seq<seq<string>>, isCancellation: bool)
    requires Uniform(blocks, 10)
    ensures var lines := DocumentLines(blocks, isCancellation);
      && |lines| == 6 + 10 * |blocks|
      && lines[..5] == Header(isCancellation)
      && lines[|lines| - 1] == Footer
  {
    FlattenLength(blocks, 10);
    var lines := DocumentLines(blocks, isCancellation);
    assert lines[..5] == Header(isCancellation);
  }

  /** Line k of block i is line 5 + 10 * i + k of the document: the blocks keep their order. */
  lemma DocumentLineAt(blocks: seq<seq<string>>, isCancellation: bool, i: nat, k: nat)
    requires Uniform(blocks, 10) && i < |blocks| && k < 10
    ensures var lines := DocumentLines(blocks, isCancellation);
      5 + 10 * i + k < |lines| && lines[5 + 10 * i + k] == blocks[i][k]
  {
    FlattenAt(blocks, 10, i, k);
    FlattenLength(blocks, 10);
  }

  /** generateICSContent on the collected entries. */
  function ContentOf(entries: Result<seq<Entry>, string>, clock: nat -> nat, isCancellation: bool): Result<string, string> {
    match entries
    case Failure(e) => Failure(e)
    case Success(es) =>
      match Blocks(es, clock, isCancellation)
      case Failure(e) => Failure(e)
      case Success(bs) => Success(Document(bs, isCancellation))
  }

  /**
   * generateICS / generateCancelICS: the empty list fails the schema
   * (400), the first unknown uid gives 404, a time the formatter rejects
   * gives 500 with its message, and otherwise the document is returned.
   */
  function IcsResponse(request: seq<CalendarEvent>, catalog: seq<CatalogEvent>, clock: nat -> nat, isCancellation: bool): Response {
    if |request| == 0 then ErrorJson(400, InvalidEventData)
    else
      match FirstMissing(request, catalog)
      case Some(i) => ErrorJson(404, NotFoundMessage(request[i].uid))
      case None =>
        match ContentOf(Entries(request, catalog), clock, isCancellation)
        case Failure(e) => ErrorJson(500, e)
        case Success(content) => IcsFile(content, FileName(isCancellation))
  }

  /** The shared body of the two handlers, with the pre-check loop and its early return. */
  method HandleIcs(request: seq<CalendarEvent>, catalog: seq<CatalogEvent>, clock: nat -> nat, isCancellation: bool)
    returns (response: Response)
    ensures response == IcsResponse(request, catalog, clock, isCancellation)
  {
    if |request| == 0 {
      return ErrorJson(400, InvalidEventData);
    }
    var i := 0;
    while i < |request|
      invariant 0 <= i <= |request|
      invariant forall k :: 0 <= k < i ==> Find(catalog, request[k].uid).Some?
    {
      if Find(catalog, request[i].uid).None? {
        FirstMissingIs(request, catalog, i);
        return ErrorJson(404, NotFoundMessage(request[i].uid));
      }
      i := i + 1;
    }
    var entries := CollectEntries(request, catalog);
    response := match ContentOf(entries, clock, isCancellation)
      case Failure(e) => ErrorJson(500, e)
      case Success(content) => IcsFile(content, FileName(isCancellation));
  }

  /** generateICS */
  method GenerateIcs(request: seq<CalendarEvent>, catalog: seq<CatalogEvent>, clock: nat -> nat) returns (response: Response)
    ensures response == IcsResponse(request, catalog, clock, false)
  {
    response := HandleIcs(request, catalog, clock, false);
  }

  /** generateCancelICS */
  method GenerateCancelIcs(request: seq<CalendarEvent>, catalog: seq<CatalogEvent>, clock: nat -> nat) returns (response: Response)
    ensures response == IcsResponse(request, catalog, clock, true)
  {
    response := HandleIcs(request, catalog, clock, true);
  }

  // ---------------------------------------------------------------------
  // Properties of the handlers
  // ---------------------------------------------------------------------

  /** An empty selection is answered with 400 and nothing else is. */
  lemma EmptyRequestIff(request: seq<CalendarEvent>, catalog: seq<CatalogEvent>, clock: nat -> nat, isCancellation: bool)
    ensures var r := IcsResponse(request, catalog, clock, isCancellation);
      (r.ErrorJson? && r.status == 400) <==> |request| == 0
  {
    var r := IcsResponse(request, catalog, clock, isCancellation);
    if |request| > 0 && FirstMissing(request, catalog).None? {
      var c := ContentOf(Entries(request, catalog), clock, isCancellation);
      assert Entries(request, catalog).Success?;
      if c.Failure? {
        assert r == ErrorJson(500, c.error);
      }
    }
  }

  /**
   * A non-empty selection with an unknown uid is answered with 404 naming
   * the first unknown uid, and no document; a 404 means some uid is unknown.
   */
  lemma MissingUidIff(request: seq<CalendarEvent>, catalog: seq<CatalogEvent>, clock: nat -> nat, isCancellation: bool)
    requires |request| > 0
    ensures var r := IcsResponse(request, catalog, clock, isCancellation);
      (r.ErrorJson? && r.status == 404) <==> exists k :: 0 <= k < |request| && Find(catalog, request[k].uid).None?
    ensures forall i :: (0 <= i < |request| && Find(catalog, request[i].uid).None?
        && (forall k :: 0 <= k < i ==> Find(catalog, request[k].uid).Some?)) ==>
      IcsResponse(request, catalog, clock, isCancellation) == ErrorJson(404, NotFoundMessage(request[i].uid))
  {
    forall i | 0 <= i < |request| && Find(catalog, request[i].uid).None?
        && (forall k :: 0 <= k < i ==> Find(catalog, request[k].uid).Some?)
      ensures IcsResponse(request, catalog, clock, isCancellation) == ErrorJson(404, NotFoundMessage(request[i].uid))
    {
      FirstMissingIs(request, catalog, i);
    }
    var r := IcsResponse(request, catalog, clock, isCancellation);
    if FirstMissing(request, catalog).None? {
      var c := ContentOf(Entries(request, catalog), clock, isCancellation);
      if c.Failure? {
        assert c.error == InvalidTimeValue;
      }
    } else {
      var k := FirstMissing(request, catalog).value;
      assert Find(catalog, request[k].uid).None?;
    }
  }

  /**
   * A document is returned exactly when the selection is non-empty, every
   * uid is known and every start and end can be formatted; it is then the
   * header, one VEVENT per pick in order and the footer, under the mode's
   * file name.
   */
  lemma DocumentResponse(request: seq<CalendarEvent>, catalog: seq<CatalogEvent>, clock: nat -> nat, isCancellation: bool)
    ensures var r := IcsResponse(request, catalog, clock, isCancellation);
      r.IcsFile? <==> (|request| > 0 && FirstMissing(request, catalog).None?
        && Blocks(Entries(request, catalog).value, clock, isCancellation).Success?)
    ensures var r := IcsResponse(request, catalog, clock, isCancellation);
      r.IcsFile? ==>
        var bs := Blocks(Entries(request, catalog).value, clock, isCancellation).value;
        && r.fileName == FileName(isCancellation)
        && |bs| == |request|
        && (forall i :: 0 <= i < |request| ==>
              bs[i] == EventLines(MakeEntry(Find(catalog, request[i].uid).value, request[i].startDateTime), clock(i), isCancellation).value)
        && r.content == Join(DocumentLines(bs, isCancellation), "\n")
  {
    var r := IcsResponse(request, catalog, clock, isCancellation);
    if |request| > 0 && FirstMissing(request, catalog).None? {
      var es := Entries(request, catalog).value;
      var b := Blocks(es, clock, isCancellation);
      if b.Success? {
        BlocksValues(es, clock, isCancellation);
        BlocksUniform(es, clock, isCancellation);
        DocumentIsLines(b.value, isCancellation);
      }
    }
  }

  /**
   * For the same event and stamps, the create and the cancel VEVENT
   * differ only in their STATUS line; in particular their UIDs agree.
   */
  lemma CancelDiffersOnlyInStatus(event: CatalogEvent, start: string, end: string, stamp: string)
    ensures VEventLines(event, start, end, stamp, true)[3] == "STATUS:CANCELLED"
    ensures VEventLines(event, start, end, stamp, false)[3] == "STATUS:CONFIRMED"
    ensures forall k :: 0 <= k < 10 && k != 3 ==>
      VEventLines(event, start, end, stamp, true)[k] == VEventLines(event, start, end, stamp, false)[k]
  {
  }

  /** Whether an entry's event can be written does not depend on the mode. */
  lemma EventLinesModes(e: Entry, now: nat)
    ensures EventLines(e, now, true).Success? <==> EventLines(e, now, false).Success?
    ensures EventLines(e, now, true).Success? ==>
      var start, end := FormatUtc(e.start).value, FormatUtc(e.end).value;
      && EventLines(e, now, true).value == VEventLines(e.event, start, end, Now(now), true)
      && EventLines(e, now, false).value == VEventLines(e.event, start, end, Now(now), false)
  {
  }

  /** The header differs between the modes only in its METHOD line. */
  lemma HeaderDiffersOnlyInMethod()
    ensures Header(true)[4] == "METHOD:CANCEL" && Header(false)[4] == "METHOD:REQUEST"
    ensures Header(true)[..4] == Header(false)[..4]
  {
  }

  /** UTC start is the JST wall clock minus nine hours; end is start plus the slot. */
  lemma UtcTimes(event: CatalogEvent, jst: DateTime)
    requires Parseable(jst)
    ensures var e := MakeEntry(event, jst);
      && Minutes(DateTimeOfMinutes(e.start.value)) == Minutes(jst) - 9 * 60
      && Minutes(DateTimeOfMinutes(e.end.value)) == Minutes(DateTimeOfMinutes(e.start.value)) + event.timeSlotMinutes
  {
  }

  /** A minute offset of a parseable reading formats as that reading's stamp. */
  lemma FormatUtcOfReading(t: DateTime, m: Option<int>)
    requires Parseable(t) && m == Some(Minutes(t))
    ensures FormatUtc(m) == Success(BasicUtc(t, 0))
  {
    DateTimeOfMinutesInverse(t);
  }

  /** Two readings on the same day lie their difference in hours and minutes apart. */
  lemma SameDayMinutes(d: Date, h1: int, m1: int, h2: int, m2: int)
    requires 1 <= d.month <= 12
    ensures Minutes(DateTime(d, h1, m1)) == Minutes(DateTime(d, h2, m2)) + (h1 - h2) * 60 + (m1 - m2)
  {
  }

  /** 2025-02-09 19:30 JST with a 30-minute slot: DTSTART 2025-02-09 10:30 UTC, DTEND 11:00 UTC. */
  lemma ExampleFebruaryNinth(event: CatalogEvent)
    requires event.timeSlotMinutes == 30
    ensures var e := MakeEntry(event, DateTime(Date(2025, 2, 9), 19, 30));
      && FormatUtc(e.start) == Success(BasicUtc(DateTime(Date(2025, 2, 9), 10, 30), 0))
      && FormatUtc(e.end) == Success(BasicUtc(DateTime(Date(2025, 2, 9), 11, 0), 0))
  {
    FebruaryNinthStart(event);
    FebruaryNinthEnd(event);
  }

  lemma FebruaryNinthStart(event: CatalogEvent)
    requires event.timeSlotMinutes == 30
    ensures FormatUtc(MakeEntry(event, DateTime(Date(2025, 2, 9), 19, 30)).start)
         == Success(BasicUtc(DateTime(Date(2025, 2, 9), 10, 30), 0))
  {
    FebruaryNinthEntry(event);
    FormatUtcOfReading(DateTime(Date(2025, 2, 9), 10, 30), MakeEntry(event, DateTime(Date(2025, 2, 9), 19, 30)).start);
  }

  lemma FebruaryNinthEnd(event: CatalogEvent)
    requires event.timeSlotMinutes == 30
    ensures FormatUtc(MakeEntry(event, DateTime(Date(2025, 2, 9), 19, 30)).end)
         == Success(BasicUtc(DateTime(Date(2025, 2, 9), 11, 0), 0))
  {
    FebruaryNinthEntry(event);
    FormatUtcOfReading(DateTime(Date(2025, 2, 9), 11, 0), MakeEntry(event, DateTime(Date(2025, 2, 9), 19, 30)).end);
  }

  lemma FebruaryNinthEntry(event: CatalogEvent)
    requires event.timeSlotMinutes == 30
    ensures var d := Date(2025, 2, 9);
      var e := MakeEntry(event, DateTime(d, 19, 30));
      Parseable(DateTime(d, 10, 30)) && Parseable(DateTime(d, 11, 0)) &&
      e.start == Some(Minutes(DateTime(d, 10, 30))) && e.end == Some(Minutes(DateTime(d, 11, 0)))
  {
    var d := Date(2025, 2, 9);
    SameDayMinutes(d, 19, 30, 10, 30);
    SameDayMinutes(d, 11, 0, 10, 30);
  }

  /** 1 January 2025 is the day after 31 December 2024. */
  lemma NewYearDays()
    ensures DayNumber(Date(2025, 1, 1)) == DayNumber(Date(2024, 12, 31)) + 1
  {
    YearStartStep(2024);
  }

  /** The nine hours carry back across the year: 2025-01-01 05:00 JST is 2024-12-31 20:00 UTC. */
  lemma ExampleNewYear(event: CatalogEvent)
    ensures var e := MakeEntry(event, DateTime(Date(2025, 1, 1), 5, 0));
      FormatUtc(e.start) == Success(BasicUtc(DateTime(Date(2024, 12, 31), 20, 0), 0))
  {
    var e := MakeEntry(event, DateTime(Date(2025, 1, 1), 5, 0));
    NewYearDays();
    FormatUtcOfReading(DateTime(Date(2024, 12, 31), 20, 0), e.start);
  }
  /** A JST reading with year 0 does not parse: the four-digit year field rejects it. */
  lemma YearZeroUnparseable(t: DateTime)
    requires t.date.year == 0
    ensures !Parseable(t)
  {
  }

  /**
   * Before 09:00 on 1 January of year 1 (JST) the reading parses, but its
   * UTC start falls on 31 December of year 0, which the four-digit re-parse
   * rejects, so format throws. The year is a parameter equal to 1.
   */
  lemma YearOneMorningUnwritable(event: CatalogEvent, y: int, hour: int, minute: int)
    requires y == 1 && 0 <= hour < 9 && 0 <= minute < 60
    ensures var e := MakeEntry(event, DateTime(Date(y, 1, 1), hour, minute));
      e.start.Some? && FormatUtc(e.start) == Failure(InvalidTimeValue)
  {
    EarlyNewYearStart(event, y, hour, minute);
    FormatUtcOfUnreadable(DateTime(Date(y - 1, 12, 31), hour + 15, minute),
      MakeEntry(event, DateTime(Date(y, 1, 1), hour, minute)).start);
  }

  /** Before 09:00 JST on 1 January, the UTC start is on 31 December of the year before. */
  lemma EarlyNewYearStart(event: CatalogEvent, y: int, hour: int, minute: int)
    requires 1 <= y <= 9999 && 0 <= hour < 9 && 0 <= minute < 60
    ensures MakeEntry(event, DateTime(Date(y, 1, 1), hour, minute)).start
         == Some(Minutes(DateTime(Date(y - 1, 12, 31), hour + 15, minute)))
  {
    YearStartStep(y - 1);
  }

  /** A reading whose year the four-digit parse rejects cannot be formatted. */
  lemma FormatUtcOfUnreadable(t: DateTime, m: Option<int>)
    requires ValidDateTime(t) && !(1 <= t.date.year <= 9999) && m == Some(Minutes(t))
    ensures FormatUtc(m) == Failure(InvalidTimeValue)
  {
    DateTimeOfMinutesInverse(t);
  }
}
