/**
 * The events hook of the front end (app/composables/useEvents.ts): the
 * catalog it loads, the selection it keeps, and the handlers that replace
 * the selection. Loading is reduced to the state update that ends it.
 */
module EventStore {
  import opened Types
  import opened Selection

  class Store {
    var events: seq<Event>
    var selected: seq<SelectedSchedule>

    /** The selection holds no key twice. */
    predicate Valid()
      reads this
    {
      DistinctKeys(selected, KeyOf)
    }

    /** `useState<Event[]>([])` and `useState<SelectedSchedule[]>([])` */
    constructor()
      ensures events == [] && selected == [] && Valid()
    {
      events := [];
      selected := [];
    }

    /** `isLoading: events.length === 0` */
    predicate IsLoading(): (r: bool)
      reads this
      ensures r <==> events == []
    {
      |events| == 0
    }

    /** `setEvents(...)` once the catalog has been fetched. */
    method SetEvents(es: seq<Event>)
      modifies this
      ensures events == es && selected == old(selected)
      ensures IsLoading() <==> es == []
    {
      events := es;
    }

    /** `setSelectedSchedules`, which the hook also hands to its callers. */
    method SetSelectedSchedules(xs: seq<SelectedSchedule>)
      modifies this
      ensures selected == xs && events == old(events)
    {
      selected := xs;
    }

    method HandleScheduleToggle(x: SelectedSchedule)
      modifies this
      ensures selected == Toggle(old(selected), KeyOf, x) && events == old(events)
      ensures old(Valid()) ==> Valid()
    {
      ghost var prev := selected;
      selected := Toggle(selected, KeyOf, x);
      if DistinctKeys(prev, KeyOf) {
        ToggleDistinct(prev, KeyOf, x);
      }
    }

    method HandleBulkToggle(schedules: seq<SelectedSchedule>)
      modifies this
      ensures selected == BulkToggle(old(selected), KeyOf, schedules) && events == old(events)
      ensures old(Valid()) ==> Valid()
    {
      ghost var prev := selected;
      var allKeys := Keys(schedules, KeyOf);
      var allSelected := AllSelected(selected, KeyOf, allKeys);
      if allSelected {
        selected := WithoutKeys(selected, KeyOf, allKeys);
      } else {
        selected := AppendMissingLoop(selected, KeyOf, schedules);
      }
      if DistinctKeys(prev, KeyOf) {
        BulkToggleDistinct(prev, KeyOf, schedules);
      }
    }

    method HandleRemoveSchedule(uid: string, date: DateInfo, time: TimeInfo)
      modifies this
      ensures selected == Remove(old(selected), KeyOf, CreateEventKey(uid, date, time)) && events == old(events)
      ensures old(Valid()) ==> Valid()
    {
      selected := Remove(selected, KeyOf, CreateEventKey(uid, date, time));
    }
  }
}
