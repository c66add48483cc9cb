/**
 * The catalog conversion of scripts/convert-complete-events.ts: scraped
 * rows are grouped by title into a `Map` of event records. Navigation
 * labels and empty titles are skipped; each kept row adds one schedule;
 * the image and the slot length are updated row by row. The uuidv5 hash of
 * the title is a parameter.
 */
module ConvertComplete {
  import opened Wrappers
  import opened Text
  import opened Seqs
  import opened Grouping

  /** One scraped row; `None` is a missing (undefined) field. */
  datatype Row = Row(
    title: string,
    date: string,
    time: string,
    duration: Option<int>,
    platform: Option<seq<string>>,
    imageUrl: Option<string>)

  datatype RawSchedule = RawSchedule(year: string, month: string, day: string, hour: string, minute: Option<string>)

  /** The `EventData` record the map holds. */
  datatype EventData = EventData(
    uid: string,
    floor: string,
    platform: seq<string>,
    title: string,
    timeSlotMinutes: int,
    image: Option<string>,
    schedules: seq<RawSchedule>)

  datatype MonthDay = MonthDay(month: string, day: string)

  /** `parseDateString`: "09" becomes "9"; every other month keeps its two characters. */
  function ParseDateString(dateStr: string): MonthDay {
    var head := Substring(dateStr, 0, 2);
    MonthDay(if head == "09" then "9" else head, Substring(dateStr, 2, 4))
  }

  /**
   * On a string of at least four characters the month is its first two
   * characters, except that "09" loses its zero, and the day the next two.
   * On four digits the month reads back as the number of the first two.
   */
  lemma ParseDateStringFourChars(dateStr: string)
    requires |dateStr| >= 4
    ensures var r := ParseDateString(dateStr);
      (r.month == "9" <==> dateStr[..2] == "09") &&
      (dateStr[..2] != "09" ==> r.month == dateStr[..2]) &&
      r.day == dateStr[2..4] &&
      (AllDigits(dateStr[..4]) ==> AllDigits(r.month) && DigitsValue(r.month) == DigitsValue(dateStr[..2]))
  {
    var head := dateStr[..2];
    assert Substring(dateStr, 0, 2) == head;
    if AllDigits(dateStr[..4]) {
      assert forall i :: 0 <= i < 2 ==> head[i] == dateStr[..4][i];
      if head == "09" {
        assert head[..1] == "0" && DigitsValue("0") == 0;
      }
    }
  }

  /** Only September loses its leading zero. */
  lemma ParseDateStringExamples()
    ensures ParseDateString("0919") == MonthDay("9", "19")
    ensures ParseDateString("0819") == MonthDay("08", "19")
    ensures ParseDateString("1003") == MonthDay("10", "03")
  {
    assert "0919"[..2] == "09" && "0919"[2..4] == "19";
    assert "0819"[..2] == "08" && "0819"[2..4] == "19";
    assert "1003"[..2] == "10" && "1003"[2..4] == "03";
  }

  /** The `navigationItems` set. */
  const NavigationItems: set<string> := {
    "ホーム", "HOME", "アーティスト", "タイムテーブル", "イベント", "フロア",
    "グッズ", "Q&A", "初めての方へ", "はじめての方へ", "チケット"}

  const DefaultFloor: string := "その他"
  const DefaultPlatform: seq<string> := ["PC"]
  const Year: string := "2025"
  const BaseSlot: int := 30

  /** A row the loop does not skip: not a navigation label, title not empty. */
  predicate Survives(r: Row) {
    r.title !in NavigationItems && r.title != ""
  }

  function TitleOf(r: Row): string {
    r.title
  }

  /** A number is truthy unless it is missing or zero. */
  predicate DurationTruthy(d: Option<int>) {
    d.Some? && d.value != 0
  }

  /** A string is truthy unless it is missing or empty. */
  predicate ImageTruthy(u: Option<string>) {
    u.Some? && u.value != ""
  }

  /** The schedule pushed for a row: `time.split(":")` destructured into hour and minute. */
  function ScheduleOf(r: Row): RawSchedule {
    var md := ParseDateString(r.date);
    var parts := Split(r.time, ':');
    RawSchedule(Year, md.month, md.day, parts[0], if |parts| >= 2 then Some(parts[1]) else None)
  }

  /** The record created for the first row of a title. */
  function Initial(r: Row, uid: string): EventData {
    var slot := if DurationTruthy(r.duration) && r.duration.value >= 60 then r.duration.value else BaseSlot;
    EventData(uid, DefaultFloor, if r.platform.Some? then r.platform.value else DefaultPlatform,
              r.title, slot, r.imageUrl, [])
  }

  /** The three updates each row makes to its title's record. */
  function Step(e: EventData, r: Row): EventData {
    var e1 := e.(schedules := e.schedules + [ScheduleOf(r)]);
    var e2 := if ImageTruthy(r.imageUrl) && !ImageTruthy(e1.image) then e1.(image := r.imageUrl) else e1;
    if DurationTruthy(r.duration) && r.duration.value > e2.timeSlotMinutes then e2.(timeSlotMinutes := r.duration.value) else e2
  }

  /** The record after the given rows, in order. */
  function Replay(e: EventData, rows: seq<Row>): EventData {
    if |rows| == 0 then e else Step(Replay(e, rows[..|rows| - 1]), rows[|rows| - 1])
  }

  /** The record of one title: created from its first row, then updated by each of its rows. */
  function Merged(g: seq<Row>, uidOf: string -> string): EventData
    requires |g| > 0
  {
    Replay(Initial(g[0], uidOf(g[0].title)), g)
  }

  /** The kept rows. */
  function Surviving(rows: seq<Row>): seq<Row> {
    Filter(rows, Survives)
  }

  /** The map's values: one record per kept title, in first-appearance order. */
  function Entries(rows: seq<Row>, uidOf: string -> string): seq<EventData> {
    var kept := Surviving(rows);
    var ks := FirstAppearance(kept, TitleOf);
    GroupsCover(kept, TitleOf);
    seq(|ks|, i requires 0 <= i < |ks| => Merged(WithKey(kept, TitleOf, ks[i]), uidOf))
  }

  predicate HasTitle(e: EventData) {
    |e.title| > 0
  }

  /** The `eventsJson.events` list: the values with a non-empty title. */
  function Converted(rows: seq<Row>, uidOf: string -> string): seq<EventData> {
    Filter(Entries(rows, uidOf), HasTitle)
  }

  // ---------------------------------------------------------------------
  // The loop
  // ---------------------------------------------------------------------

  /** The loop's state: one record per title seen so far, built from that title's kept rows. */
  ghost predicate EntriesInv(kept: seq<Row>, order: seq<string>, m: map<string, EventData>, uidOf: string -> string) {
    order == FirstAppearance(kept, TitleOf) &&
    (forall k :: k in m <==> k in order) &&
    Built(kept, order, m, uidOf)
  }

  /** Each listed title's record is built from that title's rows. */
  ghost predicate Built(kept: seq<Row>, order: seq<string>, m: map<string, EventData>, uidOf: string -> string)
    requires forall k :: k in order ==> k in m
  {
    forall k :: k in order ==>
      |WithKey(kept, TitleOf, k)| > 0 && m[k] == Merged(WithKey(kept, TitleOf, k), uidOf)
  }

  lemma ReplaySnoc(e: EventData, g: seq<Row>, r: Row)
    ensures Replay(e, g + [r]) == Step(Replay(e, g), r)
  {
    assert (g + [r])[..|g|] == g;
  }

  /** Another title's record is untouched and its rows are unchanged. */
  lemma StepOtherTitle(kept: seq<Row>, order: seq<string>, m: map<string, EventData>, uidOf: string -> string,
                       r: Row, k: string)
    requires EntriesInv(kept, order, m, uidOf)
    requires k in order && k != r.title
    ensures |WithKey(kept + [r], TitleOf, k)| > 0 && m[k] == Merged(WithKey(kept + [r], TitleOf, k), uidOf)
  {
    KeyStep(kept, r, TitleOf, k);
    var g := WithKey(kept, TitleOf, k);
    assert g + [] == g;
    assert WithKey(kept + [r], TitleOf, k) == g;
    assert m[k] == Merged(g, uidOf);
  }

  /** A row of a title already in the map updates that title's record. */
  lemma StepSeenTitle(kept: seq<Row>, order: seq<string>, m: map<string, EventData>, uidOf: string -> string, r: Row)
    requires EntriesInv(kept, order, m, uidOf)
    requires r.title in order
    ensures |WithKey(kept + [r], TitleOf, r.title)| > 0
    ensures Step(m[r.title], r) == Merged(WithKey(kept + [r], TitleOf, r.title), uidOf)
  {
    var g := WithKey(kept, TitleOf, r.title);
    KeyStep(kept, r, TitleOf, r.title);
    var init := Initial(g[0], uidOf(g[0].title));
    assert m[r.title] == Replay(init, g);
    assert (g + [r])[0] == g[0];
    ReplaySnoc(init, g, r);
  }

  /** The first row of a new title creates its record and updates it. */
  lemma StepNewTitle(kept: seq<Row>, order: seq<string>, m: map<string, EventData>, uidOf: string -> string, r: Row)
    requires EntriesInv(kept, order, m, uidOf)
    requires r.title !in order
    ensures |WithKey(kept + [r], TitleOf, r.title)| > 0
    ensures Step(Initial(r, uidOf(r.title)), r) == Merged(WithKey(kept + [r], TitleOf, r.title), uidOf)
  {
    FirstAppearanceFacts(kept, TitleOf);
    assert !Occurs(kept, TitleOf, r.title);
    KeyStep(kept, r, TitleOf, r.title);
    ReplaySnoc(Initial(r, uidOf(r.title)), [], r);
    assert [] + [r] == [r];
  }

  lemma EntriesInvStep(kept: seq<Row>, order: seq<string>, m: map<string, EventData>, uidOf: string -> string, r: Row)
    requires EntriesInv(kept, order, m, uidOf)
    ensures var base := if r.title in m then m[r.title] else Initial(r, uidOf(r.title));
      EntriesInv(kept + [r], if r.title in order then order else order + [r.title], m[r.title := Step(base, r)], uidOf)
  {
    var order' := if r.title in order then order else order + [r.title];
    var base := if r.title in m then m[r.title] else Initial(r, uidOf(r.title));
    var m' := m[r.title := Step(base, r)];
    FirstAppearanceSnoc(kept, r, TitleOf);
    KeysStep(order, m, r.title, order', m');
    BuiltStep(kept, order, m, uidOf, r, order', m');
  }

  lemma BuiltStep(kept: seq<Row>, order: seq<string>, m: map<string, EventData>, uidOf: string -> string, r: Row,
                  order': seq<string>, m': map<string, EventData>)
    requires EntriesInv(kept, order, m, uidOf)
    requires order' == (if r.title in order then order else order + [r.title])
    requires m' == m[r.title := Step(if r.title in m then m[r.title] else Initial(r, uidOf(r.title)), r)]
    requires forall k :: k in m' <==> k in order'
    ensures Built(kept + [r], order', m', uidOf)
  {
    forall k | k in order'
      ensures |WithKey(kept + [r], TitleOf, k)| > 0 && m'[k] == Merged(WithKey(kept + [r], TitleOf, k), uidOf)
    {
      StepAt(kept, order, m, uidOf, r, k);
    }
  }

  /** After one row, each listed title's record is built from that title's rows. */
  lemma StepAt(kept: seq<Row>, order: seq<string>, m: map<string, EventData>, uidOf: string -> string, r: Row, k: string)
    requires EntriesInv(kept, order, m, uidOf)
    requires k in order || k == r.title
    ensures var base := if r.title in m then m[r.title] else Initial(r, uidOf(r.title));
      var m' := m[r.title := Step(base, r)];
      |WithKey(kept + [r], TitleOf, k)| > 0 && m'[k] == Merged(WithKey(kept + [r], TitleOf, k), uidOf)
  {
    if k != r.title {
      StepOtherTitle(kept, order, m, uidOf, r, k);
    } else if r.title in order {
      StepSeenTitle(kept, order, m, uidOf, r);
    } else {
      StepNewTitle(kept, order, m, uidOf, r);
    }
  }

  lemma MapOverwrite<K, V>(before: map<K, V>, mid: map<K, V>, key: K, v: V)
    requires forall k :: k != key ==> (k in mid <==> k in before)
    requires forall k :: k != key && k in before ==> mid[k] == before[k]
    ensures mid[key := v] == before[key := v]
  {
  }

  lemma SurvivingSnoc(rows: seq<Row>, i: nat)
    requires i < |rows|
    ensures Surviving(rows[..i + 1]) == Surviving(rows[..i]) + (if Survives(rows[i]) then [rows[i]] else [])
  {
    assert rows[..i + 1] == rows[..i] + [rows[i]];
    FilterSnoc(rows[..i], rows[i], Survives);
  }

  /** The script's main loop and its final filter. */
  method ConvertCompleteEvents(rows: seq<Row>, uidOf: string -> string) returns (events: seq<EventData>)
    ensures events == Converted(rows, uidOf)
  {
    var eventMap: map<string, EventData> := map[];
    var order: seq<string> := [];
    ghost var kept: seq<Row> := [];
    for i := 0 to |rows|
      invariant kept == Surviving(rows[..i])
      invariant EntriesInv(kept, order, eventMap, uidOf)
    {
      var r := rows[i];
      SurvivingSnoc(rows, i);
      if r.title in NavigationItems {
        continue;
      }
      if r.title == "" {
        continue;
      }
      assert Survives(r);
      var key := r.title;
      EntriesInvStep(kept, order, eventMap, uidOf, r);
      ghost var base := if key in eventMap then eventMap[key] else Initial(r, uidOf(key));
      ghost var before := eventMap;
      ghost var order' := if key in order then order else order + [key];
      assert (key in eventMap) == (key in order);
      if key !in eventMap {
        eventMap := eventMap[key := Initial(r, uidOf(r.title))];
        order := order + [key];
      }
      var e := eventMap[key];
      e := e.(schedules := e.schedules + [ScheduleOf(r)]);
      if ImageTruthy(r.imageUrl) && !ImageTruthy(e.image) {
        e := e.(image := r.imageUrl);
      }
      if DurationTruthy(r.duration) && r.duration.value > e.timeSlotMinutes {
        e := e.(timeSlotMinutes := r.duration.value);
      }
      assert e == Step(base, r);
      MapOverwrite(before, eventMap, key, e);
      eventMap := eventMap[key := e];
      kept := kept + [r];
      assert order == order' && eventMap == before[key := Step(base, r)];
    }
    assert rows[..|rows|] == rows;
    var values := seq(|order|, j requires 0 <= j < |order| => eventMap[order[j]]);
    assert values == Entries(rows, uidOf);
    events := Filter(values, HasTitle);
  }

  // ---------------------------------------------------------------------
  // What each record holds
  // ---------------------------------------------------------------------

  /** The schedules the given rows push, one per row, in order. */
  function SchedulesOf(g: seq<Row>): (r: seq<RawSchedule>)
    ensures |r| == |g|
    ensures forall i :: 0 <= i < |g| ==> r[i] == ScheduleOf(g[i])
  {
    seq(|g|, i requires 0 <= i < |g| => ScheduleOf(g[i]))
  }

  lemma StepKeeps(e: EventData, r: Row)
    ensures var x := Step(e, r);
      x.uid == e.uid && x.floor == e.floor && x.platform == e.platform && x.title == e.title &&
      x.schedules == e.schedules + [ScheduleOf(r)]
  {
  }

  /** Rows only add schedules: uid, floor, platform and title stay as created. */
  lemma {:induction false} ReplayKeeps(e: EventData, g: seq<Row>)
    ensures var x := Replay(e, g);
      x.uid == e.uid && x.floor == e.floor && x.platform == e.platform && x.title == e.title &&
      x.schedules == e.schedules + SchedulesOf(g)
  {
    if |g| == 0 {
      assert SchedulesOf(g) == [];
    } else {
      var init := g[..|g| - 1];
      var last := g[|g| - 1];
      ReplayKeeps(e, init);
      StepKeeps(Replay(e, init), last);
      SchedulesSnoc(e.schedules, g);
    }
  }

  lemma SchedulesSnoc(pre: seq<RawSchedule>, g: seq<Row>)
    requires |g| > 0
    ensures pre + SchedulesOf(g) == (pre + SchedulesOf(g[..|g| - 1])) + [ScheduleOf(g[|g| - 1])]
  {
    assert SchedulesOf(g) == SchedulesOf(g[..|g| - 1]) + [ScheduleOf(g[|g| - 1])];
  }

  /**
   * The slot only grows, and ends as the largest of its start value and
   * the truthy durations of the rows.
   */
  lemma {:induction false} ReplaySlot(e: EventData, g: seq<Row>)
    ensures var x := Replay(e, g);
      x.timeSlotMinutes >= e.timeSlotMinutes &&
      (forall i :: 0 <= i < |g| && DurationTruthy(g[i].duration) ==> x.timeSlotMinutes >= g[i].duration.value) &&
      (x.timeSlotMinutes == e.timeSlotMinutes ||
       exists i :: 0 <= i < |g| && DurationTruthy(g[i].duration) && x.timeSlotMinutes == g[i].duration.value)
  {
    if |g| > 0 {
      var init := g[..|g| - 1];
      ReplaySlot(e, init);
      var before := Replay(e, init);
      var x := Replay(e, g);
      forall i | 0 <= i < |init| ensures init[i] == g[i] { }
      if x.timeSlotMinutes != e.timeSlotMinutes {
        if x.timeSlotMinutes == before.timeSlotMinutes {
          var i :| 0 <= i < |init| && DurationTruthy(init[i].duration) && before.timeSlotMinutes == init[i].duration.value;
          assert g[i] == init[i];
        } else {
          assert x.timeSlotMinutes == g[|g| - 1].duration.value;
        }
      }
    }
  }

  predicate NoImage(g: seq<Row>) {
    forall i :: 0 <= i < |g| ==> !ImageTruthy(g[i].imageUrl)
  }

  /** Index i holds the first truthy image URL of g. */
  predicate FirstImageAt(g: seq<Row>, i: int) {
    0 <= i < |g| && ImageTruthy(g[i].imageUrl) && forall j :: 0 <= j < i ==> !ImageTruthy(g[j].imageUrl)
  }

  /**
   * A truthy image is never replaced; a falsy one is replaced by the first
   * truthy image URL among the rows, and kept when there is none.
   */
  lemma {:induction false} ReplayImage(e: EventData, g: seq<Row>)
    ensures var x := Replay(e, g);
      (ImageTruthy(e.image) ==> x.image == e.image) &&
      (!ImageTruthy(e.image) && NoImage(g) ==> x.image == e.image) &&
      (!ImageTruthy(e.image) && !NoImage(g) ==> exists i :: FirstImageAt(g, i) && x.image == g[i].imageUrl)
  {
    if |g| > 0 {
      var init := g[..|g| - 1];
      var last := g[|g| - 1];
      ReplayImage(e, init);
      var before := Replay(e, init);
      forall i | 0 <= i < |init| ensures init[i] == g[i] { }
      if !ImageTruthy(e.image) && !NoImage(g) {
        if NoImage(init) {
          assert FirstImageAt(g, |g| - 1);
        } else {
          var i :| FirstImageAt(init, i) && before.image == init[i].imageUrl;
          assert FirstImageAt(g, i);
        }
      }
    }
  }

  /** The record of one title, as the loop leaves it. */
  lemma MergedFacts(g: seq<Row>, uidOf: string -> string)
    requires |g| > 0
    ensures var x := Merged(g, uidOf);
      x.uid == uidOf(g[0].title) && x.floor == DefaultFloor && x.title == g[0].title &&
      x.platform == (if g[0].platform.Some? then g[0].platform.value else DefaultPlatform) &&
      x.schedules == SchedulesOf(g)
    ensures var x := Merged(g, uidOf);
      x.timeSlotMinutes >= BaseSlot &&
      (forall i :: 0 <= i < |g| && DurationTruthy(g[i].duration) ==> x.timeSlotMinutes >= g[i].duration.value) &&
      (x.timeSlotMinutes == BaseSlot ||
       exists i :: 0 <= i < |g| && DurationTruthy(g[i].duration) && x.timeSlotMinutes == g[i].duration.value)
    ensures var x := Merged(g, uidOf);
      (NoImage(g) ==> x.image == g[0].imageUrl) &&
      (!NoImage(g) ==> exists i :: FirstImageAt(g, i) && x.image == g[i].imageUrl)
  {
    var init := Initial(g[0], uidOf(g[0].title));
    ReplayKeeps(init, g);
    ReplaySlot(init, g);
    ReplayImage(init, g);
    if ImageTruthy(init.image) {
      assert FirstImageAt(g, 0);
    }
  }

  /** Every record's title is non-empty, so the final filter keeps all of them. */
  lemma FinalFilterKeepsAll(rows: seq<Row>, uidOf: string -> string)
    ensures Converted(rows, uidOf) == Entries(rows, uidOf)
  {
    var kept := Surviving(rows);
    var ks := FirstAppearance(kept, TitleOf);
    var entries := Entries(rows, uidOf);
    FirstAppearanceFacts(kept, TitleOf);
    GroupsCover(kept, TitleOf);
    forall i | 0 <= i < |entries| ensures HasTitle(entries[i]) {
      var g := WithKey(kept, TitleOf, ks[i]);
      assert ks[i] in ks;
      MergedFacts(g, uidOf);
      assert g[0] in kept;
    }
    FilterAll(entries, HasTitle);
  }

  /**
   * One record per distinct title of the kept rows, in order of first
   * appearance; record i holds the schedules of exactly that title's kept
   * rows, in input order, each of year "2025".
   */
  lemma ConvertedRecords(rows: seq<Row>, uidOf: string -> string)
    ensures var out := Converted(rows, uidOf);
      var kept := Surviving(rows);
      var ks := FirstAppearance(kept, TitleOf);
      |out| == |ks| &&
      forall i :: 0 <= i < |out| ==>
        out[i].title == ks[i] && out[i].uid == uidOf(ks[i]) && out[i].floor == DefaultFloor &&
        out[i].schedules == SchedulesOf(WithKey(kept, TitleOf, ks[i])) &&
        forall j :: 0 <= j < |out[i].schedules| ==> out[i].schedules[j].year == Year
  {
    var kept := Surviving(rows);
    var ks := FirstAppearance(kept, TitleOf);
    FinalFilterKeepsAll(rows, uidOf);
    var out := Entries(rows, uidOf);
    GroupsCover(kept, TitleOf);
    forall i | 0 <= i < |out|
      ensures out[i].title == ks[i] && out[i].uid == uidOf(ks[i]) && out[i].floor == DefaultFloor &&
        out[i].schedules == SchedulesOf(WithKey(kept, TitleOf, ks[i]))
    {
      var g := WithKey(kept, TitleOf, ks[i]);
      MergedFacts(g, uidOf);
      assert g[0] in g;
    }
  }

  /** Record i carries the i-th title in order of first appearance. */
  lemma ConvertedTitlesInOrder(rows: seq<Row>, uidOf: string -> string)
    ensures var out := Converted(rows, uidOf);
      var ks := FirstAppearance(Surviving(rows), TitleOf);
      |out| == |ks| && forall i :: 0 <= i < |out| ==> out[i].title == ks[i]
  {
    ConvertedRecords(rows, uidOf);
  }

  /** The output titles are distinct. */
  lemma ConvertedTitlesDistinct(rows: seq<Row>, uidOf: string -> string)
    ensures var out := Converted(rows, uidOf);
      forall i, j :: 0 <= i < j < |out| ==> out[i].title != out[j].title
  {
    ConvertedTitlesInOrder(rows, uidOf);
    FirstAppearanceFacts(Surviving(rows), TitleOf);
  }

  /**
   * A title is among the output titles exactly when some row carries it
   * and it is neither a navigation label nor empty.
   */
  lemma ConvertedTitleIff(rows: seq<Row>, uidOf: string -> string, t: string)
    ensures (exists i :: 0 <= i < |Converted(rows, uidOf)| && Converted(rows, uidOf)[i].title == t) <==>
      (t !in NavigationItems && t != "" && exists r :: r in rows && r.title == t)
  {
    var kept := Surviving(rows);
    ConvertedTitlesInOrder(rows, uidOf);
    TitleAmong(Converted(rows, uidOf), FirstAppearance(kept, TitleOf), t);
    FirstAppearanceFacts(kept, TitleOf);
    OccursIff(kept, TitleOf, t);
    SurvivingTitle(rows, t);
  }

  /** A list of records whose titles are ks has title t exactly when t is in ks. */
  lemma TitleAmong(out: seq<EventData>, ks: seq<string>, t: string)
    requires |out| == |ks| && forall i :: 0 <= i < |out| ==> out[i].title == ks[i]
    ensures (exists i :: 0 <= i < |out| && out[i].title == t) <==> t in ks
  {
    if t in ks {
      var i :| 0 <= i < |ks| && ks[i] == t;
      assert out[i].title == t;
    }
  }

  /** A title survives the filter exactly when some row carries it and it is neither a label nor empty. */
  lemma SurvivingTitle(rows: seq<Row>, t: string)
    ensures (exists x :: x in Surviving(rows) && TitleOf(x) == t) <==>
      (t !in NavigationItems && t != "" && exists r :: r in rows && r.title == t)
  {
    if t !in NavigationItems && t != "" && exists r :: r in rows && r.title == t {
      var r :| r in rows && r.title == t;
      assert r in Surviving(rows);
    }
  }

  /** The time field is split at its colon: "HH:mm" gives hour HH and minute mm. */
  lemma ScheduleOfTime(r: Row, hour: string, minute: string)
    requires ':' !in hour && ':' !in minute && r.time == hour + ":" + minute
    ensures ScheduleOf(r).hour == hour && ScheduleOf(r).minute == Some(minute)
  {
    assert Join([hour, minute], [':']) == r.time;
    JoinSplit([hour, minute], ':');
  }

  /** A time without a colon leaves the minute undefined. */
  lemma ScheduleOfTimeNoColon(r: Row)
    requires ':' !in r.time
    ensures ScheduleOf(r).hour == r.time && ScheduleOf(r).minute == None
  {
    assert Join([r.time], [':']) == r.time;
    JoinSplit([r.time], ':');
  }
}
