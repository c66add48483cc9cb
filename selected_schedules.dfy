/**
 * The summary of the user's picks (app/components/SelectedSchedules.tsx):
 * the display format of one pick, the grouping of picks by event, and the
 * order of the picks inside a group.
 */
module SelectedSchedulesView {
  import opened Wrappers
  import opened Text
  import opened Types
  import opened Seqs
  import opened Grouping

  // ---------------------------------------------------------------------
  // formatForDisplay
  // ---------------------------------------------------------------------

  datatype Display = Display(date: string, time: string)

  /** `${month}月${day}日`, unpadded. */
  function DisplayDate(s: SelectedSchedule): string {
    IntToString(s.schedule.date.month) + "月" + IntToString(s.schedule.date.day) + "日"
  }

  /**
   * The hour and minute padded to two digits around ":", the shape shared
   * by `formatForDisplay` and the sort comparator's time key.
   */
  function TimeKey(s: SelectedSchedule): string {
    Fields(PadStart(IntToString(s.schedule.time.hour), 2, '0'), ':',
           PadStart(IntToString(s.schedule.time.minute), 2, '0'))
  }

  /** `formatForDisplay(schedule)`. */
  function FormatForDisplay(s: SelectedSchedule): Display {
    Display(DisplayDate(s), TimeKey(s))
  }

  /** A digit string followed by a non-digit marker splits at the marker. */
  lemma SplitAtMarker(x: string, y: string, x2: string, y2: string, c: char)
    requires AllDigits(x) && AllDigits(x2) && !IsDigit(c)
    requires x + [c] + y == x2 + [c] + y2
    ensures x == x2 && y == y2
  {
    var s := x + [c] + y;
    assert s == x2 + [c] + y2;
    assert forall i :: 0 <= i < |x| ==> IsDigit(s[i]);
    assert forall i :: 0 <= i < |x2| ==> IsDigit(s[i]);
    assert s[|x|] == c && s[|x2|] == c;
    assert x == s[..|x|] == x2;
    assert y == s[|x| + 1..] == y2;
  }

  /** In range, a padded field is the two-digit rendering of the number. */
  lemma PaddedField(n: int)
    requires 0 <= n < 100
    ensures PadStart(IntToString(n), 2, '0') == Pad2(n)
  {
  }

  /** Two padded fields around a separator compare as the pair of their numbers. */
  lemma PaddedFieldsOrder(a1: int, b1: int, a2: int, b2: int, sep: char)
    requires 0 <= a1 < 100 && 0 <= b1 < 100 && 0 <= a2 < 100 && 0 <= b2 < 100
    ensures
      var x := Fields(PadStart(IntToString(a1), 2, '0'), sep, PadStart(IntToString(b1), 2, '0'));
      var y := Fields(PadStart(IntToString(a2), 2, '0'), sep, PadStart(IntToString(b2), 2, '0'));
      (LexLess(x, y) <==> a1 < a2 || (a1 == a2 && b1 < b2)) && (x == y <==> a1 == a2 && b1 == b2)
  {
    PaddedField(a1);
    PaddedField(b1);
    PaddedField(a2);
    PaddedField(b2);
    FieldsOrder(Pad2(a1), Pad2(b1), Pad2(a2), Pad2(b2), sep);
    TwoDigitOrder(Pad2(a1), Pad2(a2));
    TwoDigitOrder(Pad2(b1), Pad2(b2));
  }

  /** An unpadded date text splits back into its month and day digits. */
  lemma DateTextSplit(a: string, b: string, a2: string, b2: string)
    requires AllDigits(a) && AllDigits(b) && AllDigits(a2) && AllDigits(b2)
    requires a + "月" + b + "日" == a2 + "月" + b2 + "日"
    ensures a == a2 && b == b2
  {
    var y, y2 := b + "日", b2 + "日";
    assert a + "月" + b + "日" == a + ['月'] + y;
    assert a2 + "月" + b2 + "日" == a2 + ['月'] + y2;
    SplitAtMarker(a, y, a2, y2, '月');
    assert b == y[..|y| - 1] == y2[..|y2| - 1] == b2;
  }

  /** The unpadded date shows month and day, and different ones differently. */
  lemma DisplayDateInjective(m1: nat, d1: nat, m2: nat, d2: nat)
    requires NatToString(m1) + "月" + NatToString(d1) + "日" == NatToString(m2) + "月" + NatToString(d2) + "日"
    ensures m1 == m2 && d1 == d2
  {
    DateTextSplit(NatToString(m1), NatToString(d1), NatToString(m2), NatToString(d2));
    NatToStringInjective(m1, m2);
    NatToStringInjective(d1, d2);
  }

  /**
   * The display shows month, day, hour and minute and nothing else: for
   * non-negative month and day and hour and minute below 100, two picks are
   * displayed alike exactly when those four numbers agree. The year and the
   * uid are not shown.
   */
  lemma FormatForDisplayFaithful(a: SelectedSchedule, b: SelectedSchedule)
    requires a.schedule.date.month >= 0 && a.schedule.date.day >= 0
    requires b.schedule.date.month >= 0 && b.schedule.date.day >= 0
    requires 0 <= a.schedule.time.hour < 100 && 0 <= a.schedule.time.minute < 100
    requires 0 <= b.schedule.time.hour < 100 && 0 <= b.schedule.time.minute < 100
    ensures FormatForDisplay(a) == FormatForDisplay(b) <==>
      (a.schedule.date.month == b.schedule.date.month && a.schedule.date.day == b.schedule.date.day &&
       a.schedule.time.hour == b.schedule.time.hour && a.schedule.time.minute == b.schedule.time.minute)
  {
    var da, db := a.schedule.date, b.schedule.date;
    var ta, tb := a.schedule.time, b.schedule.time;
    PaddedFieldsOrder(ta.hour, ta.minute, tb.hour, tb.minute, ':');
    if DisplayDate(a) == DisplayDate(b) {
      DisplayDateInjective(da.month, da.day, db.month, db.day);
    }
  }

  // ---------------------------------------------------------------------
  // Grouping by event uid
  // ---------------------------------------------------------------------

  datatype Group = Group(event: Event, schedules: seq<SelectedSchedule>)

  /** `events.find((e) => e.uid === uid)`. */
  function FindEvent(events: seq<Event>, uid: string): (r: Option<Event>)
    ensures r.Some? ==> r.value in events && r.value.uid == uid
  {
    if |events| == 0 then None
    else if events[0].uid == uid then Some(events[0])
    else FindEvent(events[1..], uid)
  }

  /** The search fails exactly when no event has the uid, and otherwise finds the first one. */
  lemma {:induction false} FindEventIsFirst(events: seq<Event>, uid: string)
    ensures FindEvent(events, uid).None? <==> forall i :: 0 <= i < |events| ==> events[i].uid != uid
    ensures FindEvent(events, uid).Some? ==>
      exists i :: (0 <= i < |events| && events[i] == FindEvent(events, uid).value &&
        forall j :: 0 <= j < i ==> events[j].uid != uid)
  {
    if |events| > 0 && events[0].uid != uid {
      FindEventIsFirst(events[1..], uid);
      assert forall i :: 0 < i < |events| ==> events[i] == events[1..][i - 1];
      if FindEvent(events, uid).Some? {
        var i :| 0 <= i < |events[1..]| && events[1..][i] == FindEvent(events, uid).value &&
          forall j :: 0 <= j < i ==> events[1..][j].uid != uid;
        assert events[i + 1] == events[1..][i];
      }
    }
  }

  function UidOf(s: SelectedSchedule): string {
    s.uid
  }

  function KnownUid(events: seq<Event>): SelectedSchedule -> bool {
    (s: SelectedSchedule) => FindEvent(events, s.uid).Some?
  }

  /** The picks that survive the `if (!event) continue` guard, in order. */
  function Kept(events: seq<Event>, selected: seq<SelectedSchedule>): seq<SelectedSchedule> {
    Filter(selected, KnownUid(events))
  }

  lemma KeptKeysKnown(events: seq<Event>, selected: seq<SelectedSchedule>)
    ensures forall k :: k in FirstAppearance(Kept(events, selected), UidOf) ==> FindEvent(events, k).Some?
  {
    var kept := Kept(events, selected);
    FirstAppearanceFacts(kept, UidOf);
    forall k | k in FirstAppearance(kept, UidOf)
      ensures FindEvent(events, k).Some?
    {
      var i :| 0 <= i < |kept| && UidOf(kept[i]) == k;
      assert kept[i] in kept;
    }
  }

  /**
   * `Array.from(groupedSchedules.values())`: one group per known uid in
   * order of first appearance, holding the event found for that uid and its
   * picks in input order.
   */
  function GroupedSchedules(events: seq<Event>, selected: seq<SelectedSchedule>): seq<Group> {
    var kept := Kept(events, selected);
    var ks := FirstAppearance(kept, UidOf);
    KeptKeysKnown(events, selected);
    seq(|ks|, i requires 0 <= i < |ks| => Group(FindEvent(events, ks[i]).value, WithKey(kept, UidOf, ks[i])))
  }

  /** The loop's state: the groups of the kept picks so far, keyed by uid in first-appearance order. */
  ghost predicate GroupsInv(events: seq<Event>, kept: seq<SelectedSchedule>, order: seq<string>, m: map<string, Group>) {
    order == FirstAppearance(kept, UidOf) &&
    (forall k :: k in m <==> k in order) &&
    forall k :: k in order ==>
      FindEvent(events, k).Some? && m[k] == Group(FindEvent(events, k).value, WithKey(kept, UidOf, k))
  }

  /** The group for uid k after adding pick s. */
  lemma GroupsInvStepAt(events: seq<Event>, kept: seq<SelectedSchedule>, order: seq<string>, m: map<string, Group>,
                        s: SelectedSchedule, event: Event, k: string)
    requires GroupsInv(events, kept, order, m)
    requires FindEvent(events, s.uid) == Some(event)
    requires k in order || k == s.uid
    ensures var group := if s.uid in m then m[s.uid] else Group(event, []);
      var m' := m[s.uid := group.(schedules := group.schedules + [s])];
      FindEvent(events, k).Some? && m'[k] == Group(FindEvent(events, k).value, WithKey(kept + [s], UidOf, k))
  {
    var group := if s.uid in m then m[s.uid] else Group(event, []);
    var group' := group.(schedules := group.schedules + [s]);
    KeyStep(kept, s, UidOf, k);
    if k != s.uid {
      assert k in order;
    } else if s.uid in order {
      assert group == Group(event, WithKey(kept, UidOf, k));
      assert group' == Group(event, WithKey(kept + [s], UidOf, k));
    } else {
      FirstAppearanceFacts(kept, UidOf);
      assert !Occurs(kept, UidOf, s.uid);
      assert group' == Group(event, [s]);
    }
  }

  /** Adding a pick with a known uid to its group, new or existing, keeps the state right. */
  lemma GroupsInvStep(events: seq<Event>, kept: seq<SelectedSchedule>, order: seq<string>, m: map<string, Group>,
                      s: SelectedSchedule, event: Event)
    requires GroupsInv(events, kept, order, m)
    requires FindEvent(events, s.uid) == Some(event)
    ensures var group := if s.uid in m then m[s.uid] else Group(event, []);
      GroupsInv(events, kept + [s], if s.uid in order then order else order + [s.uid],
                m[s.uid := group.(schedules := group.schedules + [s])])
  {
    var order' := if s.uid in order then order else order + [s.uid];
    var group := if s.uid in m then m[s.uid] else Group(event, []);
    var m' := m[s.uid := group.(schedules := group.schedules + [s])];
    KeyStep(kept, s, UidOf, s.uid);
    KeysStep(order, m, s.uid, order', m');
    GroupsValuesStep(events, kept, order, m, s, event);
    assert GroupsInv(events, kept + [s], order', m');
  }

  lemma GroupsValuesStep(events: seq<Event>, kept: seq<SelectedSchedule>, order: seq<string>, m: map<string, Group>,
                         s: SelectedSchedule, event: Event)
    requires GroupsInv(events, kept, order, m)
    requires FindEvent(events, s.uid) == Some(event)
    ensures var group := if s.uid in m then m[s.uid] else Group(event, []);
      var m' := m[s.uid := group.(schedules := group.schedules + [s])];
      forall k :: k in (if s.uid in order then order else order + [s.uid]) ==>
        FindEvent(events, k).Some? && m'[k] == Group(FindEvent(events, k).value, WithKey(kept + [s], UidOf, k))
  {
    var order' := if s.uid in order then order else order + [s.uid];
    var group := if s.uid in m then m[s.uid] else Group(event, []);
    var m' := m[s.uid := group.(schedules := group.schedules + [s])];
    forall k | k in order'
      ensures FindEvent(events, k).Some? && m'[k] == Group(FindEvent(events, k).value, WithKey(kept + [s], UidOf, k))
    {
      GroupsInvStepAt(events, kept, order, m, s, event, k);
    }
  }

  /** The `useMemo` loop over the picks, building a `Map` from uid to group. */
  method GroupSchedules(events: seq<Event>, selected: seq<SelectedSchedule>) returns (groups: seq<Group>)
    ensures groups == GroupedSchedules(events, selected)
  {
    var m: map<string, Group> := map[];
    var order: seq<string> := [];
    ghost var kept: seq<SelectedSchedule> := [];
    for i := 0 to |selected|
      invariant kept == Kept(events, selected[..i])
      invariant GroupsInv(events, kept, order, m)
    {
      var s := selected[i];
      assert selected[..i + 1] == selected[..i] + [s];
      FilterSnoc(selected[..i], s, KnownUid(events));
      var event := FindEvent(events, s.uid);
      if event.Some? {
        GroupsInvStep(events, kept, order, m, s, event.value);
        var group := if s.uid in m then m[s.uid] else Group(event.value, []);
        group := group.(schedules := group.schedules + [s]);
        if s.uid !in order {
          order := order + [s.uid];
        }
        m := m[s.uid := group];
        kept := kept + [s];
      }
    }
    assert selected[..|selected|] == selected;
    KeptKeysKnown(events, selected);
    groups := seq(|order|, j requires 0 <= j < |order| => m[order[j]]);
  }

  /**
   * Every kept pick lands in exactly one group, the one for its uid,
   * whose event carries that uid; picks with an unknown uid are in no group.
   */
  lemma GroupsHoldExactlyTheKnownPicks(events: seq<Event>, selected: seq<SelectedSchedule>, s: SelectedSchedule)
    ensures var groups := GroupedSchedules(events, selected);
      (forall i :: 0 <= i < |groups| ==> groups[i].event in events) &&
      (forall i :: 0 <= i < |groups| && s in groups[i].schedules ==>
         groups[i].event.uid == s.uid && s in selected && FindEvent(events, s.uid).Some?) &&
      (s in selected && FindEvent(events, s.uid).Some? ==>
         exists i :: 0 <= i < |groups| && s in groups[i].schedules)
  {
    var kept := Kept(events, selected);
    var ks := FirstAppearance(kept, UidOf);
    var groups := GroupedSchedules(events, selected);
    KeptKeysKnown(events, selected);
    forall i | 0 <= i < |groups|
      ensures groups[i].event in events
    {
      var j :| 0 <= j < |events| && events[j] == FindEvent(events, ks[i]).value;
    }
    forall i | 0 <= i < |groups| && s in groups[i].schedules
      ensures groups[i].event.uid == s.uid
    {
      assert groups[i].schedules == WithKey(kept, UidOf, ks[i]);
    }
    if s in selected && FindEvent(events, s.uid).Some? {
      assert s in kept;
      var p :| 0 <= p < |kept| && kept[p] == s;
      GroupsCover(kept, UidOf);
      var i :| 0 <= i < |ks| && ks[i] == s.uid;
      assert s in groups[i].schedules;
    }
  }

  /** Different groups are for different uids, so a pick is in at most one group. */
  lemma GroupsDistinct(events: seq<Event>, selected: seq<SelectedSchedule>)
    ensures var groups := GroupedSchedules(events, selected);
      forall i, j :: 0 <= i < j < |groups| ==> groups[i].event.uid != groups[j].event.uid
  {
    var ks := FirstAppearance(Kept(events, selected), UidOf);
    var groups := GroupedSchedules(events, selected);
    KeptKeysKnown(events, selected);
    FirstAppearanceFacts(Kept(events, selected), UidOf);
    forall i, j | 0 <= i < j < |groups|
      ensures groups[i].event.uid != groups[j].event.uid
    {
      assert groups[i].event.uid == ks[i] && groups[j].event.uid == ks[j];
    }
  }

  /** The group sizes add up to the number of picks with a known uid. */
  lemma GroupSizesTotal(events: seq<Event>, selected: seq<SelectedSchedule>)
    ensures var groups := GroupedSchedules(events, selected);
      Sum(seq(|groups|, i requires 0 <= i < |groups| => |groups[i].schedules|)) ==
        |Kept(events, selected)|
  {
    var kept := Kept(events, selected);
    var groups := GroupedSchedules(events, selected);
    GroupsPartition(kept, UidOf);
    SumPointwise(seq(|groups|, i requires 0 <= i < |groups| => |groups[i].schedules|),
                 GroupSizes(kept, UidOf, FirstAppearance(kept, UidOf)));
  }

  /** Groups come in order of first appearance of their uid among the kept picks. */
  lemma GroupsInFirstAppearanceOrder(events: seq<Event>, selected: seq<SelectedSchedule>, i: nat, j: nat, q: nat)
    requires i < j < |GroupedSchedules(events, selected)|
    requires q < |Kept(events, selected)| && Kept(events, selected)[q].uid == GroupedSchedules(events, selected)[j].event.uid
    ensures exists p :: 0 <= p < q && Kept(events, selected)[p].uid == GroupedSchedules(events, selected)[i].event.uid
  {
    var kept := Kept(events, selected);
    var ks := FirstAppearance(kept, UidOf);
    KeptKeysKnown(events, selected);
    assert GroupedSchedules(events, selected)[j].event.uid == ks[j];
    assert GroupedSchedules(events, selected)[i].event.uid == ks[i];
    FirstAppearanceOrder(kept, UidOf, i, j, q);
    var p :| 0 <= p < q && UidOf(kept[p]) == ks[i];
  }

  // ---------------------------------------------------------------------
  // The order inside a group
  // ---------------------------------------------------------------------

  /** The comparator's `MM/DD` key. */
  function DateKey(s: SelectedSchedule): string {
    Fields(PadStart(IntToString(s.schedule.date.month), 2, '0'), '/',
           PadStart(IntToString(s.schedule.date.day), 2, '0'))
  }

  /** The sort comparator's sign: date keys first, then time keys. */
  function CompareSchedules(a: SelectedSchedule, b: SelectedSchedule): int {
    if DateKey(a) != DateKey(b) then (if LexLess(DateKey(a), DateKey(b)) then -1 else 1)
    else if TimeKey(a) == TimeKey(b) then 0
    else if LexLess(TimeKey(a), TimeKey(b)) then -1 else 1
  }

  predicate ScheduleLe(a: SelectedSchedule, b: SelectedSchedule) {
    CompareSchedules(a, b) <= 0
  }

  /** The comparator is consistent, as `Array.prototype.sort` requires. */
  lemma ScheduleLeIsTotalPreorder()
    ensures TotalPreorder(ScheduleLe)
  {
    forall a, b
      ensures ScheduleLe(a, b) || ScheduleLe(b, a)
    {
      LexLessTotal(DateKey(a), DateKey(b));
      LexLessTotal(TimeKey(a), TimeKey(b));
    }
    forall a, b, c | ScheduleLe(a, b) && ScheduleLe(b, c)
      ensures ScheduleLe(a, c)
    {
      LexLessTotal(DateKey(a), DateKey(b));
      LexLessTotal(DateKey(b), DateKey(c));
      LexLessTotal(DateKey(a), DateKey(c));
      LexLessTotal(TimeKey(a), TimeKey(b));
      LexLessTotal(TimeKey(b), TimeKey(c));
      LexLessTotal(TimeKey(a), TimeKey(c));
      if LexLess(DateKey(a), DateKey(b)) && LexLess(DateKey(b), DateKey(c)) {
        LexLessTransitive(DateKey(a), DateKey(b), DateKey(c));
      }
      if LexLess(TimeKey(a), TimeKey(b)) && LexLess(TimeKey(b), TimeKey(c)) {
        LexLessTransitive(TimeKey(a), TimeKey(b), TimeKey(c));
      }
    }
  }

  predicate InRange(s: SelectedSchedule) {
    0 <= s.schedule.date.month < 100 && 0 <= s.schedule.date.day < 100 &&
    0 <= s.schedule.time.hour < 100 && 0 <= s.schedule.time.minute < 100
  }

  /** Lexicographic order on (month, day, hour, minute); the year plays no part. */
  predicate MonthDayTimeLess(a: SelectedSchedule, b: SelectedSchedule) {
    var x, y := a.schedule, b.schedule;
    x.date.month < y.date.month ||
    (x.date.month == y.date.month &&
     (x.date.day < y.date.day ||
      (x.date.day == y.date.day &&
       (x.time.hour < y.time.hour || (x.time.hour == y.time.hour && x.time.minute < y.time.minute)))))
  }

  /**
   * For fields below 100 the comparator orders picks by (month, day, hour,
   * minute): negative when strictly earlier, zero exactly when all four agree.
   */
  lemma CompareIsMonthDayTimeOrder(a: SelectedSchedule, b: SelectedSchedule)
    requires InRange(a) && InRange(b)
    ensures CompareSchedules(a, b) < 0 <==> MonthDayTimeLess(a, b)
    ensures CompareSchedules(a, b) == 0 <==>
      (a.schedule.date.month == b.schedule.date.month && a.schedule.date.day == b.schedule.date.day &&
       a.schedule.time.hour == b.schedule.time.hour && a.schedule.time.minute == b.schedule.time.minute)
  {
    var x, y := a.schedule, b.schedule;
    PaddedFieldsOrder(x.date.month, x.date.day, y.date.month, y.date.day, '/');
    PaddedFieldsOrder(x.time.hour, x.time.minute, y.time.hour, y.time.minute, ':');
    LexLessTotal(DateKey(a), DateKey(b));
  }

  /** `schedules.sort(comparator)` within a group. */
  function SortGroup(schedules: seq<SelectedSchedule>): (r: seq<SelectedSchedule>)
    ensures multiset(r) == multiset(schedules)
  {
    Sort(schedules, ScheduleLe)
  }

  /** With fields below 100, a sorted group never puts a later (month, day, hour, minute) first. */
  lemma SortGroupOrdered(schedules: seq<SelectedSchedule>)
    requires forall i :: 0 <= i < |schedules| ==> InRange(schedules[i])
    ensures var r := SortGroup(schedules);
      forall i, j :: 0 <= i < j < |r| ==> !MonthDayTimeLess(r[j], r[i])
  {
    var r := SortGroup(schedules);
    ScheduleLeIsTotalPreorder();
    SortSorted(schedules, ScheduleLe);
    forall i, j | 0 <= i < j < |r|
      ensures !MonthDayTimeLess(r[j], r[i])
    {
      assert r[i] in multiset(schedules) && r[j] in multiset(schedules);
      CompareIsMonthDayTimeOrder(r[j], r[i]);
      CompareIsMonthDayTimeOrder(r[i], r[j]);
    }
  }

  /** The picks with the same month, day, hour and minute as k. */
  function SameSlotAs(k: SelectedSchedule): SelectedSchedule -> bool {
    (s: SelectedSchedule) =>
      s.schedule.date.month == k.schedule.date.month && s.schedule.date.day == k.schedule.date.day &&
      s.schedule.time.hour == k.schedule.time.hour && s.schedule.time.minute == k.schedule.time.minute
  }

  /** For fields below 100, the comparator ranks two picks level exactly when their four fields agree. */
  lemma TiedIsSameSlot(k: SelectedSchedule, s: SelectedSchedule)
    requires InRange(k) && InRange(s)
    ensures TiedWith(k, ScheduleLe)(s) == SameSlotAs(k)(s)
  {
    CompareIsMonthDayTimeOrder(k, s);
    CompareIsMonthDayTimeOrder(s, k);
    assert TiedWith(k, ScheduleLe)(s) == (ScheduleLe(k, s) && ScheduleLe(s, k));
  }

  /**
   * With fields below 100 the in-group sort is stable: picks at the same
   * month, day, hour and minute keep their order in the group.
   */
  lemma SortGroupStable(schedules: seq<SelectedSchedule>, k: SelectedSchedule)
    requires InRange(k)
    requires forall i :: 0 <= i < |schedules| ==> InRange(schedules[i])
    ensures Filter(SortGroup(schedules), SameSlotAs(k)) == Filter(schedules, SameSlotAs(k))
  {
    var r := SortGroup(schedules);
    ScheduleLeIsTotalPreorder();
    SortStable(schedules, ScheduleLe, k);
    forall i | 0 <= i < |r|
      ensures TiedWith(k, ScheduleLe)(r[i]) == SameSlotAs(k)(r[i])
    {
      assert r[i] in multiset(schedules);
      TiedIsSameSlot(k, r[i]);
    }
    forall i | 0 <= i < |schedules|
      ensures TiedWith(k, ScheduleLe)(schedules[i]) == SameSlotAs(k)(schedules[i])
    {
      TiedIsSameSlot(k, schedules[i]);
    }
    FilterAgree(r, TiedWith(k, ScheduleLe), SameSlotAs(k));
    FilterAgree(schedules, TiedWith(k, ScheduleLe), SameSlotAs(k));
  }
}
