/**
 * The summer catalog conversion of scripts/convert-summer-events.ts:
 * scraped rows are grouped by title into a `Map`; a row adds a schedule
 * only when its time contains a match of the pattern `(\d+):(\d+)`. The
 * uuidv5 hash of the title is a parameter.
 */
module ConvertSummer {
  import opened Wrappers
  import opened Text
  import opened Seqs
  import opened Grouping
  import Types

  /** One scraped row; `None` is a missing (undefined) field. */
  datatype Row = Row(
    title: string,
    date: string,
    time: Option<string>,
    platform: Option<seq<string>>,
    imageUrl: Option<string>)

  datatype RawSchedule = RawSchedule(year: string, month: string, day: string, hour: string, minute: string)

  /** The record the map holds for one title. */
  datatype EventData = EventData(
    uid: string,
    floor: string,
    platform: seq<string>,
    title: string,
    timeSlotMinutes: int,
    image: Option<string>,
    schedules: seq<RawSchedule>)

  datatype MonthDay = MonthDay(month: string, day: string)

  const DefaultFloor: string := "その他"
  const DefaultPlatform: seq<string> := ["PC"]
  const Year: string := "2025"
  const Slot: int := 30

  /** `getFloorFromTitle`: the title is not consulted. */
  function FloorFromTitle(title: string): string {
    DefaultFloor
  }

  /**
   * `parseDateString`: the month is read from the second character on,
   * dropping it when it is "0"; the day is the third and fourth characters.
   */
  function ParseDateString(dateStr: string): MonthDay {
    var month := if Substring(dateStr, 1, 2) == "0" then Substring(dateStr, 2, 3) else Substring(dateStr, 1, 3);
    MonthDay(month, Substring(dateStr, 2, 4))
  }

  /**
   * On a string of at least four characters the month is the third
   * character alone when the second is '0', and the second and third
   * otherwise; either way it ends with the day's first character.
   */
  lemma ParseDateStringFourChars(dateStr: string)
    requires |dateStr| >= 4
    ensures var r := ParseDateString(dateStr);
      r.month == (if dateStr[1] == '0' then [dateStr[2]] else dateStr[1..3]) &&
      r.day == dateStr[2..4] &&
      r.month[|r.month| - 1] == r.day[0]
  {
    assert Substring(dateStr, 1, 2) == [dateStr[1]];
    assert Substring(dateStr, 2, 3) == [dateStr[2]];
  }

  /** "0919" gives month "91": the first character of the date is never read. */
  lemma ParseDateStringSeptember()
    ensures ParseDateString("0919") == MonthDay("91", "19")
    ensures ParseDateString("0819") == MonthDay("81", "19")
  {
    ParseDateStringFourChars("0919");
    ParseDateStringFourChars("0819");
    assert "0919"[1..3] == "91" && "0919"[2..4] == "19";
    assert "0819"[1..3] == "81" && "0819"[2..4] == "19";
  }

  // ---------------------------------------------------------------------
  // The time pattern /(\d+):(\d+)/
  // ---------------------------------------------------------------------

  /**
   * The match of the pattern starting at index i, if any: greedy digits,
   * a colon, greedy digits. A shorter first run would be followed by a
   * digit rather than the colon, so greediness loses no match.
   */
  function MatchAt(s: string, i: nat): Option<(string, string)>
    requires i <= |s|
  {
    if i < |s| && IsDigit(s[i]) then
      var j := i + Types.DigitPrefixLength(s[i..]);
      if j + 1 < |s| && s[j] == ':' && IsDigit(s[j + 1]) then
        Some((s[i..j], s[j + 1..][..Types.DigitPrefixLength(s[j + 1..])]))
      else None
    else None
  }

  /** The leftmost match at index i or later. */
  function SearchFrom(s: string, i: nat): Option<(string, string)>
    requires i <= |s|
    decreases |s| - i
  {
    if i == |s| then None
    else if MatchAt(s, i).Some? then MatchAt(s, i)
    else SearchFrom(s, i + 1)
  }

  /** `time?.match(/(\d+):(\d+)/)`, as its two capture groups. */
  function MatchTime(time: Option<string>): Option<(string, string)> {
    if time.None? then None else SearchFrom(time.value, 0)
  }

  /** A digit, a colon and a digit side by side at index k. */
  predicate DigitColonDigitAt(s: string, k: int) {
    0 <= k && k + 2 < |s| && IsDigit(s[k]) && s[k + 1] == ':' && IsDigit(s[k + 2])
  }

  lemma MatchAtExactly(s: string, i: nat)
    requires i <= |s|
    ensures MatchAt(s, i).Some? ==> exists k :: DigitColonDigitAt(s, k)
    ensures DigitColonDigitAt(s, i) ==> MatchAt(s, i).Some?
  {
    if MatchAt(s, i).Some? {
      var n := Types.DigitPrefixLength(s[i..]);
      assert n > 0;
      assert s[i..][n - 1] == s[i + n - 1];
      assert DigitColonDigitAt(s, i + n - 1);
    }
    if DigitColonDigitAt(s, i) {
      assert s[i..][1] == ':';
      assert Types.DigitPrefixLength(s[i..]) == 1 by {
        assert s[i..][1..][0] == ':';
      }
    }
  }

  /** The search returns the match at the first index that has one. */
  lemma {:induction false} SearchFromLeftmost(s: string, i: nat)
    requires i <= |s|
    ensures SearchFrom(s, i).Some? <==> exists k :: i <= k < |s| && MatchAt(s, k).Some?
    ensures SearchFrom(s, i).Some? ==>
      exists k :: (i <= k < |s| && SearchFrom(s, i) == MatchAt(s, k) &&
        forall k' :: i <= k' < k ==> MatchAt(s, k').None?)
    decreases |s| - i
  {
    if i < |s| {
      SearchFromLeftmost(s, i + 1);
    }
  }

  /**
   * A time matches exactly when it holds a digit, a colon and a digit side
   * by side; the groups are then non-empty runs of digits.
   */
  lemma MatchTimeIff(t: string)
    ensures MatchTime(Some(t)).Some? <==> exists k :: DigitColonDigitAt(t, k)
    ensures MatchTime(Some(t)).Some? ==>
      var (h, m) := MatchTime(Some(t)).value;
      |h| > 0 && |m| > 0 && AllDigits(h) && AllDigits(m) && Contains(t, h + ":" + m)
  {
    SearchFromLeftmost(t, 0);
    if MatchTime(Some(t)).Some? {
      var k :| 0 <= k < |t| && MatchTime(Some(t)) == MatchAt(t, k);
      MatchAtExactly(t, k);
      MatchAtGroups(t, k);
    }
    if exists k :: DigitColonDigitAt(t, k) {
      var k :| DigitColonDigitAt(t, k);
      MatchAtExactly(t, k);
    }
  }

  lemma MatchAtGroups(s: string, i: nat)
    requires i <= |s| && MatchAt(s, i).Some?
    ensures var (h, m) := MatchAt(s, i).value;
      |h| > 0 && |m| > 0 && AllDigits(h) && AllDigits(m) && Contains(s, h + ":" + m)
  {
    var n := Types.DigitPrefixLength(s[i..]);
    var j := i + n;
    var rest := s[j + 1..];
    var n2 := Types.DigitPrefixLength(rest);
    assert rest[0] == s[j + 1];
    assert s[i..][..n] == s[i..j];
    assert s[i..j + 1 + n2] == s[i..j] + ":" + rest[..n2];
  }

  /** A time "H:M" of two digit runs matches with groups H and M. */
  lemma MatchTimeOfHourMinute(h: string, m: string)
    requires |h| > 0 && |m| > 0 && AllDigits(h) && AllDigits(m)
    ensures MatchTime(Some(h + ":" + m)) == Some((h, m))
  {
    var s := h + ":" + m;
    assert s == h + (":" + m);
    Types.DigitPrefixOfDigits(h, ":" + m);
    assert s[0..] == s;
    assert s[|h|] == ':';
    assert s[|h| + 1..] == m;
    Types.DigitPrefixOfDigits(m, "");
    assert m + "" == m;
  }

  // ---------------------------------------------------------------------
  // The records
  // ---------------------------------------------------------------------

  function TitleOf(r: Row): string {
    r.title
  }

  /** A row whose time matches the pattern. */
  predicate HasTime(r: Row) {
    MatchTime(r.time).Some?
  }

  function ScheduleOf(r: Row): RawSchedule
    requires HasTime(r)
  {
    var md := ParseDateString(r.date);
    var hm := MatchTime(r.time).value;
    RawSchedule(Year, md.month, md.day, hm.0, hm.1)
  }

  /** The schedules pushed by the given rows, all of which match. */
  function SchedulesOf(g: seq<Row>): (r: seq<RawSchedule>)
    requires forall i :: 0 <= i < |g| ==> HasTime(g[i])
    ensures |r| == |g|
    ensures forall i :: 0 <= i < |g| ==> r[i] == ScheduleOf(g[i])
  {
    seq(|g|, i requires 0 <= i < |g| && HasTime(g[i]) => ScheduleOf(g[i]))
  }

  /** The rows among g whose time matches. */
  function Timed(g: seq<Row>): (r: seq<Row>)
    ensures forall i :: 0 <= i < |r| ==> HasTime(r[i])
  {
    var r := Filter(g, HasTime);
    assert forall i :: 0 <= i < |r| ==> r[i] in r;
    r
  }

  /** The record created for the first row of a title. */
  function Initial(r: Row, uid: string): EventData {
    EventData(uid, FloorFromTitle(r.title), if r.platform.Some? then r.platform.value else DefaultPlatform,
              r.title, Slot, r.imageUrl, [])
  }

  /** A row's one update to its record: a schedule if the time matches. */
  function Step(e: EventData, r: Row): EventData {
    if HasTime(r) then e.(schedules := e.schedules + [ScheduleOf(r)]) else e
  }

  function Replay(e: EventData, rows: seq<Row>): EventData {
    if |rows| == 0 then e else Step(Replay(e, rows[..|rows| - 1]), rows[|rows| - 1])
  }

  function Merged(g: seq<Row>, uidOf: string -> string): EventData
    requires |g| > 0
  {
    Replay(Initial(g[0], uidOf(g[0].title)), g)
  }

  /** `Array.from(eventMap.values())`: one record per title, in first-appearance order. */
  function Converted(rows: seq<Row>, uidOf: string -> string): seq<EventData> {
    var ks := FirstAppearance(rows, TitleOf);
    GroupsCover(rows, TitleOf);
    seq(|ks|, i requires 0 <= i < |ks| => Merged(WithKey(rows, TitleOf, ks[i]), uidOf))
  }

  // ---------------------------------------------------------------------
  // The loop
  // ---------------------------------------------------------------------

  ghost predicate EntriesInv(seen: seq<Row>, order: seq<string>, m: map<string, EventData>, uidOf: string -> string) {
    order == FirstAppearance(seen, TitleOf) &&
    (forall k :: k in m <==> k in order) &&
    Built(seen, order, m, uidOf)
  }

  /** Each listed title's record is built from that title's rows. */
  ghost predicate Built(seen: seq<Row>, order: seq<string>, m: map<string, EventData>, uidOf: string -> string)
    requires forall k :: k in order ==> k in m
  {
    forall k :: k in order ==>
      |WithKey(seen, TitleOf, k)| > 0 && m[k] == Merged(WithKey(seen, TitleOf, k), uidOf)
  }

  lemma ReplaySnoc(e: EventData, g: seq<Row>, r: Row)
    ensures Replay(e, g + [r]) == Step(Replay(e, g), r)
  {
    assert (g + [r])[..|g|] == g;
  }

  lemma StepOtherTitle(seen: seq<Row>, order: seq<string>, m: map<string, EventData>, uidOf: string -> string,
                       r: Row, k: string)
    requires EntriesInv(seen, order, m, uidOf)
    requires k in order && k != r.title
    ensures |WithKey(seen + [r], TitleOf, k)| > 0 && m[k] == Merged(WithKey(seen + [r], TitleOf, k), uidOf)
  {
    KeyStep(seen, r, TitleOf, k);
    var g := WithKey(seen, TitleOf, k);
    assert g + [] == g;
    assert WithKey(seen + [r], TitleOf, k) == g;
    assert m[k] == Merged(g, uidOf);
  }

  lemma StepSeenTitle(seen: seq<Row>, order: seq<string>, m: map<string, EventData>, uidOf: string -> string, r: Row)
    requires EntriesInv(seen, order, m, uidOf)
    requires r.title in order
    ensures |WithKey(seen + [r], TitleOf, r.title)| > 0
    ensures Step(m[r.title], r) == Merged(WithKey(seen + [r], TitleOf, r.title), uidOf)
  {
    var g := WithKey(seen, TitleOf, r.title);
    KeyStep(seen, r, TitleOf, r.title);
    var init := Initial(g[0], uidOf(g[0].title));
    assert m[r.title] == Replay(init, g);
    assert (g + [r])[0] == g[0];
    ReplaySnoc(init, g, r);
  }

  lemma StepNewTitle(seen: seq<Row>, order: seq<string>, m: map<string, EventData>, uidOf: string -> string, r: Row)
    requires EntriesInv(seen, order, m, uidOf)
    requires r.title !in order
    ensures |WithKey(seen + [r], TitleOf, r.title)| > 0
    ensures Step(Initial(r, uidOf(r.title)), r) == Merged(WithKey(seen + [r], TitleOf, r.title), uidOf)
  {
    FirstAppearanceFacts(seen, TitleOf);
    assert !Occurs(seen, TitleOf, r.title);
    KeyStep(seen, r, TitleOf, r.title);
    ReplaySnoc(Initial(r, uidOf(r.title)), [], r);
    assert [] + [r] == [r];
  }

  lemma EntriesInvStep(seen: seq<Row>, order: seq<string>, m: map<string, EventData>, uidOf: string -> string, r: Row)
    requires EntriesInv(seen, order, m, uidOf)
    ensures var base := if r.title in m then m[r.title] else Initial(r, uidOf(r.title));
      EntriesInv(seen + [r], if r.title in order then order else order + [r.title], m[r.title := Step(base, r)], uidOf)
  {
    var order' := if r.title in order then order else order + [r.title];
    var base := if r.title in m then m[r.title] else Initial(r, uidOf(r.title));
    var m' := m[r.title := Step(base, r)];
    FirstAppearanceSnoc(seen, r, TitleOf);
    KeysStep(order, m, r.title, order', m');
    BuiltStep(seen, order, m, uidOf, r, order', m');
  }

  lemma BuiltStep(seen: seq<Row>, order: seq<string>, m: map<string, EventData>, uidOf: string -> string, r: Row,
                  order': seq<string>, m': map<string, EventData>)
    requires EntriesInv(seen, order, m, uidOf)
    requires order' == (if r.title in order then order else order + [r.title])
    requires m' == m[r.title := Step(if r.title in m then m[r.title] else Initial(r, uidOf(r.title)), r)]
    requires forall k :: k in m' <==> k in order'
    ensures Built(seen + [r], order', m', uidOf)
  {
    forall k | k in order'
      ensures |WithKey(seen + [r], TitleOf, k)| > 0 && m'[k] == Merged(WithKey(seen + [r], TitleOf, k), uidOf)
    {
      StepAt(seen, order, m, uidOf, r, k);
    }
  }

  /** After one row, each listed title's record is built from that title's rows. */
  lemma StepAt(seen: seq<Row>, order: seq<string>, m: map<string, EventData>, uidOf: string -> string, r: Row, k: string)
    requires EntriesInv(seen, order, m, uidOf)
    requires k in order || k == r.title
    ensures var base := if r.title in m then m[r.title] else Initial(r, uidOf(r.title));
      var m' := m[r.title := Step(base, r)];
      |WithKey(seen + [r], TitleOf, k)| > 0 && m'[k] == Merged(WithKey(seen + [r], TitleOf, k), uidOf)
  {
    if k != r.title {
      StepOtherTitle(seen, order, m, uidOf, r, k);
    } else if r.title in order {
      StepSeenTitle(seen, order, m, uidOf, r);
    } else {
      StepNewTitle(seen, order, m, uidOf, r);
    }
  }

  lemma MapOverwrite<K, V>(before: map<K, V>, mid: map<K, V>, key: K, v: V)
    requires forall k :: k != key ==> (k in mid <==> k in before)
    requires forall k :: k != key && k in before ==> mid[k] == before[k]
    ensures mid[key := v] == before[key := v]
  {
  }

  /** The script's main loop. */
  method ConvertSummerEvents(rows: seq<Row>, uidOf: string -> string) returns (events: seq<EventData>)
    ensures events == Converted(rows, uidOf)
  {
    var eventMap: map<string, EventData> := map[];
    var order: seq<string> := [];
    for i := 0 to |rows|
      invariant EntriesInv(rows[..i], order, eventMap, uidOf)
    {
      var r := rows[i];
      assert rows[..i + 1] == rows[..i] + [r];
      var key := r.title;
      EntriesInvStep(rows[..i], order, eventMap, uidOf, r);
      ghost var base := if key in eventMap then eventMap[key] else Initial(r, uidOf(key));
      ghost var before := eventMap;
      if key !in eventMap {
        eventMap := eventMap[key := Initial(r, uidOf(r.title))];
        order := order + [key];
      }
      var md := ParseDateString(r.date);
      var timeMatch := MatchTime(r.time);
      var e := eventMap[key];
      if timeMatch.Some? {
        e := e.(schedules := e.schedules + [RawSchedule(Year, md.month, md.day, timeMatch.value.0, timeMatch.value.1)]);
      }
      assert e == Step(base, r);
      MapOverwrite(before, eventMap, key, e);
      eventMap := eventMap[key := e];
    }
    assert rows[..|rows|] == rows;
    events := seq(|order|, j requires 0 <= j < |order| => eventMap[order[j]]);
  }

  // ---------------------------------------------------------------------
  // What each record holds
  // ---------------------------------------------------------------------

  lemma StepKeeps(e: EventData, r: Row)
    ensures var x := Step(e, r);
      x.uid == e.uid && x.floor == e.floor && x.platform == e.platform && x.title == e.title &&
      x.timeSlotMinutes == e.timeSlotMinutes && x.image == e.image &&
      x.schedules == e.schedules + (if HasTime(r) then [ScheduleOf(r)] else [])
  {
  }

  lemma TimedSnoc(g: seq<Row>, r: Row)
    ensures SchedulesOf(Timed(g + [r])) == SchedulesOf(Timed(g)) + (if HasTime(r) then [ScheduleOf(r)] else [])
  {
    FilterSnoc(g, r, HasTime);
    var a := Timed(g);
    var b := Timed(g + [r]);
    assert b == a + (if HasTime(r) then [r] else []);
  }

  /** Rows only add schedules, one for each row whose time matches, in order. */
  lemma {:induction false} ReplayKeeps(e: EventData, g: seq<Row>)
    ensures var x := Replay(e, g);
      x.uid == e.uid && x.floor == e.floor && x.platform == e.platform && x.title == e.title &&
      x.timeSlotMinutes == e.timeSlotMinutes && x.image == e.image &&
      x.schedules == e.schedules + SchedulesOf(Timed(g))
  {
    if |g| == 0 {
      assert SchedulesOf(Timed(g)) == [];
    } else {
      var init := g[..|g| - 1];
      var last := g[|g| - 1];
      ReplayKeeps(e, init);
      StepKeeps(Replay(e, init), last);
      assert g == init + [last];
      TimedSnoc(init, last);
      var tail := if HasTime(last) then [ScheduleOf(last)] else [];
      assert e.schedules + SchedulesOf(Timed(g)) == (e.schedules + SchedulesOf(Timed(init))) + tail;
    }
  }

  /**
   * One record per distinct title, in first-appearance order: floor
   * "その他", slot 30, platform and image from the title's first row, and
   * one schedule for each of the title's rows whose time matches.
   */
  lemma ConvertedRecords(rows: seq<Row>, uidOf: string -> string)
    ensures var out := Converted(rows, uidOf);
      var ks := FirstAppearance(rows, TitleOf);
      |out| == |ks| &&
      forall i :: 0 <= i < |out| ==>
        var g := WithKey(rows, TitleOf, ks[i]);
        |g| > 0 &&
        out[i].title == ks[i] && out[i].uid == uidOf(ks[i]) && out[i].floor == DefaultFloor &&
        out[i].timeSlotMinutes == Slot && out[i].image == g[0].imageUrl &&
        out[i].platform == (if g[0].platform.Some? then g[0].platform.value else DefaultPlatform) &&
        out[i].schedules == SchedulesOf(Timed(g))
  {
    var ks := FirstAppearance(rows, TitleOf);
    var out := Converted(rows, uidOf);
    GroupsCover(rows, TitleOf);
    forall i | 0 <= i < |out|
      ensures var g := WithKey(rows, TitleOf, ks[i]);
        |g| > 0 &&
        out[i].title == ks[i] && out[i].uid == uidOf(ks[i]) && out[i].floor == DefaultFloor &&
        out[i].timeSlotMinutes == Slot && out[i].image == g[0].imageUrl &&
        out[i].platform == (if g[0].platform.Some? then g[0].platform.value else DefaultPlatform) &&
        out[i].schedules == SchedulesOf(Timed(g))
    {
      var g := WithKey(rows, TitleOf, ks[i]);
      assert ks[i] in ks;
      ReplayKeeps(Initial(g[0], uidOf(g[0].title)), g);
      assert g[0] in g;
    }
  }

  lemma ConvertedTitlesInOrder(rows: seq<Row>, uidOf: string -> string)
    ensures var out := Converted(rows, uidOf);
      var ks := FirstAppearance(rows, TitleOf);
      |out| == |ks| && forall i :: 0 <= i < |out| ==> out[i].title == ks[i]
  {
    ConvertedRecords(rows, uidOf);
  }

  /** The titles are distinct, and every row's title has a record. */
  lemma ConvertedTitles(rows: seq<Row>, uidOf: string -> string, t: string)
    ensures var out := Converted(rows, uidOf);
      (forall i, j :: 0 <= i < j < |out| ==> out[i].title != out[j].title) &&
      ((exists i :: 0 <= i < |out| && out[i].title == t) <==> exists r :: r in rows && r.title == t)
  {
    ConvertedTitlesInOrder(rows, uidOf);
    FirstAppearanceFacts(rows, TitleOf);
    TitleAmong(Converted(rows, uidOf), FirstAppearance(rows, TitleOf), t);
    OccursIff(rows, TitleOf, t);
  }

  /** Records whose titles are the distinct ks have distinct titles, and title t exactly when t is in ks. */
  lemma TitleAmong(out: seq<EventData>, ks: seq<string>, t: string)
    requires |out| == |ks| && forall i :: 0 <= i < |out| ==> out[i].title == ks[i]
    requires Distinct(ks)
    ensures forall i, j :: 0 <= i < j < |out| ==> out[i].title != out[j].title
    ensures (exists i :: 0 <= i < |out| && out[i].title == t) <==> t in ks
  {
    if t in ks {
      var i :| 0 <= i < |ks| && ks[i] == t;
      assert out[i].title == t;
    }
  }
}
