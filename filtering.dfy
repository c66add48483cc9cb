/**
 * The event list shown for the current view (app/hooks/useFilteredEvents.ts):
 * a view filter (the selected floor, or "today"), an optional Android-only
 * filter, and in today mode a trim of each event's schedules to the target
 * date. The target date (`selectedDate`, else the current date) is a
 * parameter.
 */
module Filtering {
  import opened Wrappers
  import opened Types
  import opened Seqs
  import Civil

  datatype ViewMode = FloorView | TodayView

  /** `schedule.date` has the year, month and day of the target date. */
  predicate OnDate(s: Schedule, target: Civil.Date) {
    s.date.year == target.year && s.date.month == target.month && s.date.day == target.day
  }

  predicate HasScheduleOn(e: Event, target: Civil.Date) {
    exists i :: 0 <= i < |e.schedules| && OnDate(e.schedules[i], target)
  }

  /** The first filter: a schedule on the target date, or the selected floor. */
  predicate MatchesView(e: Event, mode: ViewMode, selectedFloor: string, target: Civil.Date) {
    if mode == TodayView then HasScheduleOn(e, target) else e.floor == Some(selectedFloor)
  }

  /** The second filter: `!showAndroidOnly || event.platform.includes("Android")`. */
  predicate MatchesPlatform(e: Event, showAndroidOnly: bool) {
    !showAndroidOnly || "Android" in e.platform
  }

  /** `selectedDate || new Date()`. */
  function TargetDate(selectedDate: Option<Civil.Date>, today: Civil.Date): Civil.Date {
    if selectedDate.Some? then selectedDate.value else today
  }

  function ViewFilter(mode: ViewMode, selectedFloor: string, target: Civil.Date): Event -> bool {
    e => MatchesView(e, mode, selectedFloor, target)
  }

  function PlatformFilter(showAndroidOnly: bool): Event -> bool {
    e => MatchesPlatform(e, showAndroidOnly)
  }

  /** The two filters, applied in turn. */
  function SelectEvents(events: seq<Event>, mode: ViewMode, selectedFloor: string,
                        showAndroidOnly: bool, target: Civil.Date): (r: seq<Event>)
    ensures forall e :: e in r <==>
      e in events && MatchesView(e, mode, selectedFloor, target) && MatchesPlatform(e, showAndroidOnly)
  {
    Filter(Filter(events, ViewFilter(mode, selectedFloor, target)), PlatformFilter(showAndroidOnly))
  }

  /** The event with only its schedules on the target date. */
  function TrimToDate(e: Event, target: Civil.Date): Event {
    e.(schedules := Filter(e.schedules, s => OnDate(s, target)))
  }

  /** The final map: today mode trims the schedules, floor mode keeps the event. */
  function Shape(e: Event, mode: ViewMode, target: Civil.Date): Event {
    if mode == TodayView then TrimToDate(e, target) else e
  }

  /** The mapped list: each event shaped for the view. */
  function ShapeAll(kept: seq<Event>, mode: ViewMode, target: Civil.Date): (r: seq<Event>)
    ensures |r| == |kept|
    ensures forall i :: 0 <= i < |kept| ==> r[i] == Shape(kept[i], mode, target)
  {
    seq(|kept|, i requires 0 <= i < |kept| => Shape(kept[i], mode, target))
  }

  /** `getFilteredEvents()`. */
  function FilteredEvents(events: seq<Event>, mode: ViewMode, selectedFloor: string,
                          showAndroidOnly: bool, target: Civil.Date): seq<Event>
  {
    ShapeAll(SelectEvents(events, mode, selectedFloor, showAndroidOnly, target), mode, target)
  }

  /** In floor mode the result is exactly the events on the selected floor (that pass the platform filter). */
  lemma FloorModeExact(events: seq<Event>, selectedFloor: string, showAndroidOnly: bool, target: Civil.Date)
    ensures forall e :: e in FilteredEvents(events, FloorView, selectedFloor, showAndroidOnly, target) <==>
      e in events && e.floor == Some(selectedFloor) && MatchesPlatform(e, showAndroidOnly)
  {
    var kept := SelectEvents(events, FloorView, selectedFloor, showAndroidOnly, target);
    var r := FilteredEvents(events, FloorView, selectedFloor, showAndroidOnly, target);
    assert r == kept;
  }

  /**
   * In today mode an event is kept (trimmed) exactly when it has a schedule
   * on the target date, and every result has a non-empty schedule list, all
   * on that date, drawn from its source event's schedules.
   */
  lemma TodayModeExact(events: seq<Event>, selectedFloor: string, showAndroidOnly: bool, target: Civil.Date)
    ensures forall e :: e in events && MatchesPlatform(e, showAndroidOnly) ==>
      (HasScheduleOn(e, target) <==>
         TrimToDate(e, target) in FilteredEvents(events, TodayView, selectedFloor, showAndroidOnly, target))
    ensures forall x :: x in FilteredEvents(events, TodayView, selectedFloor, showAndroidOnly, target) ==>
      |x.schedules| > 0 && (forall s :: s in x.schedules ==> OnDate(s, target)) &&
      exists e :: (e in events && HasScheduleOn(e, target) && MatchesPlatform(e, showAndroidOnly) &&
        x == TrimToDate(e, target))
  {
    var r := FilteredEvents(events, TodayView, selectedFloor, showAndroidOnly, target);
    forall e | e in events && MatchesPlatform(e, showAndroidOnly)
      ensures HasScheduleOn(e, target) <==> TrimToDate(e, target) in r
    {
      TodayKeptIff(events, selectedFloor, showAndroidOnly, target, e);
    }
    forall x | x in r
      ensures |x.schedules| > 0 && (forall s :: s in x.schedules ==> OnDate(s, target))
      ensures exists e :: (e in events && HasScheduleOn(e, target) && MatchesPlatform(e, showAndroidOnly) &&
        x == TrimToDate(e, target))
    {
      TodayResult(events, selectedFloor, showAndroidOnly, target, x);
    }
  }

  lemma TodayKeptIff(events: seq<Event>, selectedFloor: string, showAndroidOnly: bool, target: Civil.Date, e: Event)
    requires e in events && MatchesPlatform(e, showAndroidOnly)
    ensures HasScheduleOn(e, target) <==>
      TrimToDate(e, target) in FilteredEvents(events, TodayView, selectedFloor, showAndroidOnly, target)
  {
    if HasScheduleOn(e, target) {
      TodayKept(events, selectedFloor, showAndroidOnly, target, e);
    }
    if TrimToDate(e, target) in FilteredEvents(events, TodayView, selectedFloor, showAndroidOnly, target) {
      TodayResult(events, selectedFloor, showAndroidOnly, target, TrimToDate(e, target));
      TrimmedHasSchedule(e, target);
    }
  }

  lemma TodayKept(events: seq<Event>, selectedFloor: string, showAndroidOnly: bool, target: Civil.Date, e: Event)
    requires e in events && MatchesPlatform(e, showAndroidOnly) && HasScheduleOn(e, target)
    ensures TrimToDate(e, target) in FilteredEvents(events, TodayView, selectedFloor, showAndroidOnly, target)
  {
    var kept := SelectEvents(events, TodayView, selectedFloor, showAndroidOnly, target);
    var r := FilteredEvents(events, TodayView, selectedFloor, showAndroidOnly, target);
    var k :| 0 <= k < |kept| && kept[k] == e;
    assert r[k] == TrimToDate(e, target);
  }

  /** An event whose trimmed schedule list is non-empty has a schedule on the date. */
  lemma TrimmedHasSchedule(e: Event, target: Civil.Date)
    requires |TrimToDate(e, target).schedules| > 0
    ensures HasScheduleOn(e, target)
  {
    var s := TrimToDate(e, target).schedules[0];
    assert s in e.schedules;
    var i :| 0 <= i < |e.schedules| && e.schedules[i] == s;
  }

  lemma TodayResult(events: seq<Event>, selectedFloor: string, showAndroidOnly: bool, target: Civil.Date, x: Event)
    requires x in FilteredEvents(events, TodayView, selectedFloor, showAndroidOnly, target)
    ensures |x.schedules| > 0 && (forall s :: s in x.schedules ==> OnDate(s, target))
    ensures exists e :: (e in events && HasScheduleOn(e, target) && MatchesPlatform(e, showAndroidOnly) &&
      x == TrimToDate(e, target))
  {
    var kept := SelectEvents(events, TodayView, selectedFloor, showAndroidOnly, target);
    var r := FilteredEvents(events, TodayView, selectedFloor, showAndroidOnly, target);
    var k :| 0 <= k < |r| && r[k] == x;
    assert kept[k] in kept;
    TrimNonEmpty(kept[k], target);
  }

  /** Trimming an event that has a schedule on the date leaves a non-empty list. */
  lemma TrimNonEmpty(e: Event, target: Civil.Date)
    requires HasScheduleOn(e, target)
    ensures |TrimToDate(e, target).schedules| > 0
  {
    var i :| 0 <= i < |e.schedules| && OnDate(e.schedules[i], target);
    assert e.schedules[i] in TrimToDate(e, target).schedules;
  }

  /** Floor mode leaves each kept event, schedules included, as it was. */
  lemma FloorModeUnchanged(events: seq<Event>, selectedFloor: string, showAndroidOnly: bool, target: Civil.Date)
    ensures FilteredEvents(events, FloorView, selectedFloor, showAndroidOnly, target) ==
      SelectEvents(events, FloorView, selectedFloor, showAndroidOnly, target)
  {
  }

  /** With the Android-only switch on, every result runs on Android. */
  lemma AndroidOnly(events: seq<Event>, mode: ViewMode, selectedFloor: string, target: Civil.Date)
    ensures forall x :: x in FilteredEvents(events, mode, selectedFloor, true, target) ==> "Android" in x.platform
  {
    var kept := SelectEvents(events, mode, selectedFloor, true, target);
    var r := FilteredEvents(events, mode, selectedFloor, true, target);
    forall x | x in r
      ensures "Android" in x.platform
    {
      var k :| 0 <= k < |r| && r[k] == x;
      assert kept[k] in kept;
    }
  }

  lemma ShapeAllAppend(a: seq<Event>, b: seq<Event>, mode: ViewMode, target: Civil.Date)
    ensures ShapeAll(a + b, mode, target) == ShapeAll(a, mode, target) + ShapeAll(b, mode, target)
  {
  }

  /** The result keeps input order: filtering a concatenation concatenates the results. */
  lemma FilteredEventsAppend(a: seq<Event>, b: seq<Event>, mode: ViewMode, selectedFloor: string,
                             showAndroidOnly: bool, target: Civil.Date)
    ensures FilteredEvents(a + b, mode, selectedFloor, showAndroidOnly, target) ==
      FilteredEvents(a, mode, selectedFloor, showAndroidOnly, target) +
      FilteredEvents(b, mode, selectedFloor, showAndroidOnly, target)
  {
    var view := ViewFilter(mode, selectedFloor, target);
    var platform := PlatformFilter(showAndroidOnly);
    FilterAppend(a, b, view);
    FilterAppend(Filter(a, view), Filter(b, view), platform);
    ShapeAllAppend(SelectEvents(a, mode, selectedFloor, showAndroidOnly, target),
                   SelectEvents(b, mode, selectedFloor, showAndroidOnly, target), mode, target);
  }
}
