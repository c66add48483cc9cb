/**
 * The main page (app/routes/_index.tsx): its own copy of the selection
 * handlers, the two-step navigation, the Next button's enabled state, and
 * the request that "add to calendar" builds from the selection.
 */
module IndexPage {
  import opened Wrappers
  import opened Text
  import opened Types
  import opened Selection

  /** The start fields of a calendar request, each `String(number)`. */
  datatype StartFields = StartFields(year: string, month: string, day: string, hour: string, minute: string)

  datatype CalendarRequest = CalendarRequest(uid: string, startDateTime: StartFields)

  const EventNotFound: string := "Event not found"

  /** `events.some((e) => e.uid === uid)`, the lookup the map callback throws on. */
  predicate Known(events: seq<Event>, uid: string) {
    exists j :: 0 <= j < |events| && events[j].uid == uid
  }

  function RequestOf(s: SelectedSchedule): CalendarRequest {
    CalendarRequest(s.uid, StartFields(
      IntToString(s.schedule.date.year), IntToString(s.schedule.date.month), IntToString(s.schedule.date.day),
      IntToString(s.schedule.time.hour), IntToString(s.schedule.time.minute)))
  }

  /**
   * `selectedSchedules.map(...)` in handleAddToCalendar: one request per
   * selection, in order, unless some selection's uid is unknown, in which
   * case the map throws "Event not found".
   */
  function SelectedEvents(events: seq<Event>, selected: seq<SelectedSchedule>): (r: Result<seq<CalendarRequest>, string>)
    ensures r.Failure? <==> exists i :: 0 <= i < |selected| && !Known(events, selected[i].uid)
    ensures r.Failure? ==> r.error == EventNotFound
    ensures r.Success? ==> (|r.value| == |selected|
      && forall i :: 0 <= i < |selected| ==> r.value[i] == RequestOf(selected[i]))
  {
    if |selected| == 0 then Success([])
    else if !Known(events, selected[0].uid) then Failure(EventNotFound)
    else
      match SelectedEvents(events, selected[1..])
      case Failure(e) => Failure(e)
      case Success(rest) =>
        assert forall i :: 1 <= i < |selected| ==> selected[i] == selected[1..][i - 1];
        Success([RequestOf(selected[0])] + rest)
  }

  /** Each start field reads back, as a decimal integer, to the number it was made from. */
  lemma RequestFieldsReadBack(s: SelectedSchedule)
    ensures var f := RequestOf(s).startDateTime;
      && ReadInt(f.year) == Some((s.schedule.date.year, ""))
      && ReadInt(f.month) == Some((s.schedule.date.month, ""))
      && ReadInt(f.day) == Some((s.schedule.date.day, ""))
      && ReadInt(f.hour) == Some((s.schedule.time.hour, ""))
      && ReadInt(f.minute) == Some((s.schedule.time.minute, ""))
  {
    var d, t := s.schedule.date, s.schedule.time;
    ReadIntOfIntToString(d.year, "");
    ReadIntOfIntToString(d.month, "");
    ReadIntOfIntToString(d.day, "");
    ReadIntOfIntToString(t.hour, "");
    ReadIntOfIntToString(t.minute, "");
    assert IntToString(d.year) + "" == IntToString(d.year);
    assert IntToString(d.month) + "" == IntToString(d.month);
    assert IntToString(d.day) + "" == IntToString(d.day);
    assert IntToString(t.hour) + "" == IntToString(t.hour);
    assert IntToString(t.minute) + "" == IntToString(t.minute);
  }

  class Page {
    var events: seq<Event>
    var selected: seq<SelectedSchedule>
    var step: int

    /** The step is 0 (choose) or 1 (confirm), and no key is selected twice. */
    predicate Valid()
      reads this
    {
      0 <= step <= 1 && DistinctKeys(selected, KeyOf)
    }

    constructor()
      ensures events == [] && selected == [] && step == 0 && Valid()
    {
      events := [];
      selected := [];
      step := 0;
    }

    /** `isNextDisabled={selectedSchedules.length === 0}` */
    predicate IsNextDisabled(): (r: bool)
      reads this
      ensures r <==> selected == []
    {
      |selected| == 0
    }

    method SetEvents(es: seq<Event>)
      modifies this
      ensures events == es && selected == old(selected) && step == old(step)
    {
      events := es;
    }

    method HandleScheduleToggle(x: SelectedSchedule)
      requires Valid()
      modifies this
      ensures selected == Toggle(old(selected), KeyOf, x)
      ensures events == old(events) && step == old(step) && Valid()
      ensures !HasKey(old(selected), KeyOf, KeyOf(x)) ==> !IsNextDisabled()
    {
      ToggleDistinct(selected, KeyOf, x);
      selected := Toggle(selected, KeyOf, x);
    }

    method HandleBulkToggle(schedules: seq<SelectedSchedule>)
      requires Valid()
      modifies this
      ensures selected == BulkToggle(old(selected), KeyOf, schedules)
      ensures events == old(events) && step == old(step) && Valid()
    {
      BulkToggleDistinct(selected, KeyOf, schedules);
      var allKeys := Keys(schedules, KeyOf);
      var allSelected := AllSelected(selected, KeyOf, allKeys);
      if allSelected {
        selected := WithoutKeys(selected, KeyOf, allKeys);
      } else {
        selected := AppendMissingLoop(selected, KeyOf, schedules);
      }
    }

    method HandleRemoveSchedule(uid: string, date: DateInfo, time: TimeInfo)
      requires Valid()
      modifies this
      ensures selected == Remove(old(selected), KeyOf, CreateEventKey(uid, date, time))
      ensures events == old(events) && step == old(step) && Valid()
      ensures HasKey(old(selected), KeyOf, CreateEventKey(uid, date, time)) ==> IsNextDisabled()
    {
      RemoveEffect(selected, KeyOf, CreateEventKey(uid, date, time));
      selected := Remove(selected, KeyOf, CreateEventKey(uid, date, time));
    }

    /** Advances from step 0 to 1; at step 1 nothing happens. */
    method HandleNextStep()
      requires Valid()
      modifies this
      ensures step == (if old(step) < 1 then old(step) + 1 else old(step))
      ensures step == 1
      ensures events == old(events) && selected == old(selected) && Valid()
    {
      if step < 1 {
        step := step + 1;
      }
    }

    /** Goes back from step 1 to 0; at step 0 nothing happens. */
    method HandleBackStep()
      requires Valid()
      modifies this
      ensures step == (if old(step) > 0 then old(step) - 1 else old(step))
      ensures step == 0
      ensures events == old(events) && selected == old(selected) && Valid()
    {
      if step > 0 {
        step := step - 1;
      }
    }
  }
}
