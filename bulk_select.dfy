/**
 * The bulk-select button (app/components/BulkSelectButton.tsx): the events
 * of the current view (untrimmed), the payload it hands to the bulk toggle,
 * the schedule count and the "all selected" label test. The current date is
 * a parameter.
 */
module BulkSelect {
  import opened Wrappers
  import opened Text
  import opened Types
  import opened Seqs
  import Civil
  import Filtering

  /** `getFilteredEvents()`: the view filter then the platform filter; schedules are not trimmed. */
  function BulkEvents(events: seq<Event>, mode: Filtering.ViewMode, selectedFloor: string,
                      showAndroidOnly: bool, today: Civil.Date): seq<Event>
  {
    Filtering.SelectEvents(events, mode, selectedFloor, showAndroidOnly, today)
  }

  /** An event's schedules, each tagged with the event's uid. */
  function Tagged(e: Event): (r: seq<SelectedSchedule>)
    ensures |r| == |e.schedules|
    ensures forall i :: 0 <= i < |r| ==> r[i] == SelectedSchedule(e.uid, e.schedules[i])
  {
    seq(|e.schedules|, i requires 0 <= i < |e.schedules| => SelectedSchedule(e.uid, e.schedules[i]))
  }

  function TaggedRows(events: seq<Event>): seq<seq<SelectedSchedule>> {
    seq(|events|, i requires 0 <= i < |events| => Tagged(events[i]))
  }

  function ScheduleRows(events: seq<Event>): seq<seq<Schedule>> {
    seq(|events|, i requires 0 <= i < |events| => events[i].schedules)
  }

  /** The `allSchedules` array that `handleBulkToggle` passes on. */
  function Payload(events: seq<Event>, mode: Filtering.ViewMode, selectedFloor: string,
                   showAndroidOnly: bool, today: Civil.Date): seq<SelectedSchedule>
  {
    Flatten(TaggedRows(BulkEvents(events, mode, selectedFloor, showAndroidOnly, today)))
  }

  /** `getAllSchedulesCount()`. */
  function AllSchedulesCount(events: seq<Event>, mode: Filtering.ViewMode, selectedFloor: string,
                             showAndroidOnly: bool, today: Civil.Date): nat
  {
    |Flatten(ScheduleRows(BulkEvents(events, mode, selectedFloor, showAndroidOnly, today)))|
  }

  /** `isAllSelected`: the selection is as long as the count. */
  predicate IsAllSelected(selected: seq<SelectedSchedule>, events: seq<Event>, mode: Filtering.ViewMode,
                          selectedFloor: string, showAndroidOnly: bool, today: Civil.Date)
  {
    |selected| == AllSchedulesCount(events, mode, selectedFloor, showAndroidOnly, today)
  }

  lemma {:induction false} FlattenSameLengths<T, U>(a: seq<seq<T>>, b: seq<seq<U>>)
    requires |a| == |b| && forall i :: 0 <= i < |a| ==> |a[i]| == |b[i]|
    ensures |Flatten(a)| == |Flatten(b)|
  {
    if |a| > 0 {
      FlattenSameLengths(a[1..], b[1..]);
    }
  }

  lemma {:induction false} FlattenMember<T>(rows: seq<seq<T>>, x: T)
    ensures x in Flatten(rows) <==> exists i :: 0 <= i < |rows| && x in rows[i]
  {
    if |rows| > 0 {
      FlattenMember(rows[1..], x);
      if x in Flatten(rows[1..]) {
        var i :| 0 <= i < |rows[1..]| && x in rows[1..][i];
        assert rows[i + 1] == rows[1..][i];
      }
      if exists i :: 0 <= i < |rows| && x in rows[i] {
        var i :| 0 <= i < |rows| && x in rows[i];
        if i > 0 {
          assert rows[1..][i - 1] == rows[i];
        }
      }
    }
  }

  lemma {:induction false} FlattenAppend<T>(a: seq<seq<T>>, b: seq<seq<T>>)
    ensures Flatten(a + b) == Flatten(a) + Flatten(b)
  {
    if |a| == 0 {
      assert a + b == b;
    } else {
      assert (a + b)[0] == a[0];
      assert (a + b)[1..] == a[1..] + b;
      FlattenAppend(a[1..], b);
    }
  }

  lemma BulkEventsAppend(a: seq<Event>, b: seq<Event>, mode: Filtering.ViewMode, selectedFloor: string,
                         showAndroidOnly: bool, today: Civil.Date)
    ensures BulkEvents(a + b, mode, selectedFloor, showAndroidOnly, today) ==
      BulkEvents(a, mode, selectedFloor, showAndroidOnly, today) + BulkEvents(b, mode, selectedFloor, showAndroidOnly, today)
  {
    var view := Filtering.ViewFilter(mode, selectedFloor, today);
    var platform := Filtering.PlatformFilter(showAndroidOnly);
    FilterAppend(a, b, view);
    FilterAppend(Filter(a, view), Filter(b, view), platform);
  }

  lemma TaggedRowsAppend(a: seq<Event>, b: seq<Event>)
    ensures TaggedRows(a + b) == TaggedRows(a) + TaggedRows(b)
  {
  }

  /** The count is the payload's length. */
  lemma CountIsPayloadLength(events: seq<Event>, mode: Filtering.ViewMode, selectedFloor: string,
                             showAndroidOnly: bool, today: Civil.Date)
    ensures AllSchedulesCount(events, mode, selectedFloor, showAndroidOnly, today) ==
      |Payload(events, mode, selectedFloor, showAndroidOnly, today)|
  {
    var kept := BulkEvents(events, mode, selectedFloor, showAndroidOnly, today);
    FlattenSameLengths(ScheduleRows(kept), TaggedRows(kept));
  }

  /**
   * The payload holds exactly the schedules of the events in view, each
   * tagged with its own event's uid; in today view that means all of a
   * kept event's schedules, not only those on the current date.
   */
  lemma PayloadMembers(events: seq<Event>, mode: Filtering.ViewMode, selectedFloor: string,
                       showAndroidOnly: bool, today: Civil.Date, x: SelectedSchedule)
    ensures x in Payload(events, mode, selectedFloor, showAndroidOnly, today) <==>
      exists e :: (e in events && Filtering.MatchesView(e, mode, selectedFloor, today) &&
        Filtering.MatchesPlatform(e, showAndroidOnly) && x.uid == e.uid && x.schedule in e.schedules)
  {
    var kept := BulkEvents(events, mode, selectedFloor, showAndroidOnly, today);
    var rows := TaggedRows(kept);
    FlattenMember(rows, x);
    if x in Flatten(rows) {
      var i :| 0 <= i < |rows| && x in rows[i];
      var j :| 0 <= j < |rows[i]| && rows[i][j] == x;
      assert kept[i] in kept;
      assert x.schedule == kept[i].schedules[j];
    }
    if exists e :: (e in events && Filtering.MatchesView(e, mode, selectedFloor, today) &&
        Filtering.MatchesPlatform(e, showAndroidOnly) && x.uid == e.uid && x.schedule in e.schedules) {
      var e :| e in events && Filtering.MatchesView(e, mode, selectedFloor, today) &&
        Filtering.MatchesPlatform(e, showAndroidOnly) && x.uid == e.uid && x.schedule in e.schedules;
      var i :| 0 <= i < |kept| && kept[i] == e;
      var j :| 0 <= j < |e.schedules| && e.schedules[j] == x.schedule;
      assert rows[i][j] == x;
    }
  }

  /**
   * The payload keeps the order of the events and, within an event, the
   * order of its schedules: it is the concatenation of the tagged schedule
   * lists of the events in view.
   */
  lemma PayloadAppend(a: seq<Event>, b: seq<Event>, mode: Filtering.ViewMode, selectedFloor: string,
                      showAndroidOnly: bool, today: Civil.Date)
    ensures Payload(a + b, mode, selectedFloor, showAndroidOnly, today) ==
      Payload(a, mode, selectedFloor, showAndroidOnly, today) + Payload(b, mode, selectedFloor, showAndroidOnly, today)
  {
    var ka := BulkEvents(a, mode, selectedFloor, showAndroidOnly, today);
    var kb := BulkEvents(b, mode, selectedFloor, showAndroidOnly, today);
    BulkEventsAppend(a, b, mode, selectedFloor, showAndroidOnly, today);
    TaggedRowsAppend(ka, kb);
    FlattenAppend(TaggedRows(ka), TaggedRows(kb));
  }

  /** A single event in view contributes its tagged schedules, in order; one out of view contributes nothing. */
  lemma PayloadOfOne(e: Event, mode: Filtering.ViewMode, selectedFloor: string,
                     showAndroidOnly: bool, today: Civil.Date)
    ensures Payload([e], mode, selectedFloor, showAndroidOnly, today) ==
      if Filtering.MatchesView(e, mode, selectedFloor, today) && Filtering.MatchesPlatform(e, showAndroidOnly)
      then Tagged(e) else []
  {
    var view := Filtering.ViewFilter(mode, selectedFloor, today);
    var platform := Filtering.PlatformFilter(showAndroidOnly);
    FilterSnoc([], e, view);
    assert [] + [e] == [e];
    FilterSnoc([], e, platform);
    var kept := BulkEvents([e], mode, selectedFloor, showAndroidOnly, today);
    if |kept| == 1 {
      assert Flatten(TaggedRows(kept)) == Tagged(e) + Flatten(TaggedRows(kept)[1..]);
    }
  }

  /** The label test is a length comparison with the payload. */
  lemma IsAllSelectedIsLengthTest(selected: seq<SelectedSchedule>, events: seq<Event>, mode: Filtering.ViewMode,
                                  selectedFloor: string, showAndroidOnly: bool, today: Civil.Date)
    ensures IsAllSelected(selected, events, mode, selectedFloor, showAndroidOnly, today) <==>
      |selected| == |Payload(events, mode, selectedFloor, showAndroidOnly, today)|
  {
    CountIsPayloadLength(events, mode, selectedFloor, showAndroidOnly, today);
  }

  /**
   * Counts only: one selection of another event's schedule makes the button
   * read "all selected" for a view whose one schedule is not selected.
   */
  lemma IsAllSelectedIgnoresContents()
    ensures var s := Schedule(Civil.Date(2025, 9, 19), TimeInfo(20, 0));
      var e := Event("A", "a", ["PC"], "", Some("F"), [s]);
      var selected := [SelectedSchedule("b", s)];
      IsAllSelected(selected, [e], Filtering.FloorView, "F", false, Civil.Date(2025, 9, 19)) &&
      Payload([e], Filtering.FloorView, "F", false, Civil.Date(2025, 9, 19))[0] !in selected
  {
    var s := Schedule(Civil.Date(2025, 9, 19), TimeInfo(20, 0));
    var e := Event("A", "a", ["PC"], "", Some("F"), [s]);
    var today := Civil.Date(2025, 9, 19);
    PayloadOfOne(e, Filtering.FloorView, "F", false, today);
    IsAllSelectedIsLengthTest([SelectedSchedule("b", s)], [e], Filtering.FloorView, "F", false, today);
  }
}
