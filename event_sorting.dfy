/**
 * Ordering events by their earliest schedule (app/hooks/useEventSorting.ts).
 * A schedule's instant is the local wall-clock minute that
 * `new Date(year, month - 1, day, hour, minute)` denotes; comparing those
 * minutes orders instants as `getTime()` does.
 */
module EventSorting {
  import opened Wrappers
  import opened Types
  import opened Seqs
  import Civil

  /** `getScheduleDate(schedule)`, as a minute offset. */
  function ScheduleTime(s: Schedule): int {
    Civil.MakeMinutes(s.date.year, s.date.month, s.date.day, s.time.hour, s.time.minute)
  }

  /**
   * `schedules.reduce(...)` from an initial earliest schedule: a later
   * schedule replaces the current one only when it is strictly earlier.
   */
  function FoldEarliest(acc: Schedule, xs: seq<Schedule>): Schedule {
    if |xs| == 0 then acc
    else
      var best := FoldEarliest(acc, xs[..|xs| - 1]);
      var current := xs[|xs| - 1];
      if ScheduleTime(current) < ScheduleTime(best) then current else best
  }

  /** `getEarliestSchedule(event)`. */
  function EarliestSchedule(e: Event): (r: Option<Schedule>)
    ensures r.None? <==> |e.schedules| == 0
  {
    if |e.schedules| == 0 then None else Some(FoldEarliest(e.schedules[0], e.schedules))
  }

  /**
   * The fold returns either its initial value, when nothing is strictly
   * earlier, or the first strictly earlier schedule of minimal time.
   */
  lemma FoldEarliestFacts(acc: Schedule, xs: seq<Schedule>)
    ensures var r := FoldEarliest(acc, xs);
      ScheduleTime(r) <= ScheduleTime(acc) &&
      (forall i :: 0 <= i < |xs| ==> ScheduleTime(r) <= ScheduleTime(xs[i])) &&
      (r == acc ||
       (ScheduleTime(r) < ScheduleTime(acc) &&
        exists i :: 0 <= i < |xs| && xs[i] == r && forall j :: 0 <= j < i ==> ScheduleTime(xs[j]) > ScheduleTime(r)))
  {
    FoldEarliestMinimal(acc, xs);
    FoldEarliestWitness(acc, xs);
  }

  /** The fold's result is no later than its initial value or any schedule. */
  lemma {:induction false} FoldEarliestMinimal(acc: Schedule, xs: seq<Schedule>)
    ensures var r := FoldEarliest(acc, xs);
      ScheduleTime(r) <= ScheduleTime(acc) &&
      forall i :: 0 <= i < |xs| ==> ScheduleTime(r) <= ScheduleTime(xs[i])
  {
    if |xs| > 0 {
      var init := xs[..|xs| - 1];
      FoldEarliestMinimal(acc, init);
      forall i | 0 <= i < |init| ensures init[i] == xs[i] { }
    }
  }

  /** The fold's result is its initial value or the first strictly earlier schedule of its time. */
  lemma {:induction false} FoldEarliestWitness(acc: Schedule, xs: seq<Schedule>)
    ensures var r := FoldEarliest(acc, xs);
      r == acc ||
      (ScheduleTime(r) < ScheduleTime(acc) &&
       exists i :: 0 <= i < |xs| && xs[i] == r && forall j :: 0 <= j < i ==> ScheduleTime(xs[j]) > ScheduleTime(r))
  {
    if |xs| > 0 {
      var init := xs[..|xs| - 1];
      var current := xs[|xs| - 1];
      FoldEarliestWitness(acc, init);
      FoldEarliestMinimal(acc, init);
      var best := FoldEarliest(acc, init);
      var r := FoldEarliest(acc, xs);
      forall i | 0 <= i < |init| ensures init[i] == xs[i] { }
      if ScheduleTime(current) < ScheduleTime(best) {
        assert xs[|xs| - 1] == r;
      } else if best != acc {
        var i :| 0 <= i < |init| && init[i] == best && forall j :: 0 <= j < i ==> ScheduleTime(init[j]) > ScheduleTime(best);
        assert xs[i] == r;
      }
    }
  }

  /**
   * An event with schedules has an earliest one: a schedule of the event
   * whose time is minimal, and the first such schedule in list order.
   */
  lemma EarliestIsFirstMinimum(e: Event)
    requires |e.schedules| > 0
    ensures var v := EarliestSchedule(e).value;
      (exists i :: 0 <= i < |e.schedules| && e.schedules[i] == v &&
         forall j :: 0 <= j < i ==> ScheduleTime(e.schedules[j]) > ScheduleTime(v)) &&
      forall j :: 0 <= j < |e.schedules| ==> ScheduleTime(v) <= ScheduleTime(e.schedules[j])
  {
    var xs := e.schedules;
    FoldEarliestFacts(xs[0], xs);
  }

  /** The sort key: the earliest start, or none for an event without schedules. */
  function Rank(e: Event): Option<int> {
    match EarliestSchedule(e)
    case None => None
    case Some(s) => Some(ScheduleTime(s))
  }

  /**
   * The comparator's "may precede": events without schedules go after
   * every event with schedules, and otherwise by earliest start.
   */
  predicate Precedes(a: Event, b: Event) {
    var ra := Rank(a);
    var rb := Rank(b);
    rb.None? || (ra.Some? && ra.value <= rb.value)
  }

  lemma PrecedesIsTotalPreorder()
    ensures TotalPreorder(Precedes)
  {
  }

  /** `sortEventsByEarliestSchedule(events)`: a stable sort of a copy. */
  function SortEventsByEarliestSchedule(events: seq<Event>): (r: seq<Event>)
    ensures multiset(r) == multiset(events)
  {
    Sort(events, Precedes)
  }

  /**
   * The sorted list holds events with schedules first, in non-decreasing
   * order of earliest start, followed by the events without schedules.
   */
  lemma SortedByEarliest(events: seq<Event>)
    ensures var r := SortEventsByEarliestSchedule(events);
      (forall i, j :: 0 <= i < j < |r| && |r[i].schedules| == 0 ==> |r[j].schedules| == 0) &&
      (forall i, j :: 0 <= i < j < |r| && |r[i].schedules| > 0 && |r[j].schedules| > 0 ==>
         ScheduleTime(EarliestSchedule(r[i]).value) <= ScheduleTime(EarliestSchedule(r[j]).value))
  {
    PrecedesIsTotalPreorder();
    SortSorted(events, Precedes);
  }

  /** The events ranked level with k: the same earliest start, or, for k without schedules, none. */
  function SameRankAs(k: Event): Event -> bool {
    e => Rank(e) == Rank(k)
  }

  /**
   * The sort is stable: events with the same earliest start, and the events
   * without schedules, keep their input order.
   */
  lemma SortEventsStable(events: seq<Event>, k: Event)
    ensures Filter(SortEventsByEarliestSchedule(events), SameRankAs(k)) == Filter(events, SameRankAs(k))
  {
    PrecedesIsTotalPreorder();
    SortStable(events, Precedes, k);
    TiedIsSameRank(k);
    var r := SortEventsByEarliestSchedule(events);
    FilterAgree(r, TiedWith(k, Precedes), SameRankAs(k));
    FilterAgree(events, TiedWith(k, Precedes), SameRankAs(k));
  }

  /** The comparator ranks two events level exactly when their sort keys agree. */
  lemma TiedIsSameRank(k: Event)
    ensures forall e :: TiedWith(k, Precedes)(e) == SameRankAs(k)(e)
  {
    forall e
      ensures TiedWith(k, Precedes)(e) == SameRankAs(k)(e)
    {
      assert TiedWith(k, Precedes)(e) == (Precedes(k, e) && Precedes(e, k));
    }
  }
}
