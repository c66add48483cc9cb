/**
 * `calculateEndTime` (utils/date.ts): the end of a performance slot as a
 * zero-padded "MM/DD" date and "HH:mm" time, computed in local wall-clock
 * time on a time zone without daylight-saving jumps.
 */
module EndTime {
  import opened Text
  import opened Types
  import Civil

  datatype SlotEnd = SlotEnd(date: string, time: string)

  /**
   * The wall-clock reading timeSlotMinutes after the start: the start is
   * normalised as `new Date(y, m - 1, d, h, min)` normalises it.
   */
  function EndReading(date: DateInfo, time: TimeInfo, timeSlotMinutes: int): (t: Civil.DateTime)
    ensures Civil.ValidDateTime(t)
    ensures Civil.Minutes(t) ==
      Civil.MakeMinutes(date.year, date.month, date.day, time.hour, time.minute) + timeSlotMinutes
  {
    Civil.DateTimeOfMinutes(Civil.MakeMinutes(date.year, date.month, date.day, time.hour, time.minute) + timeSlotMinutes)
  }

  /** `calculateEndTime(date, time, timeSlotMinutes)`: `MM/DD` and `HH:mm` of the end. */
  function CalculateEndTime(date: DateInfo, time: TimeInfo, timeSlotMinutes: int): SlotEnd {
    var t := EndReading(date, time, timeSlotMinutes);
    SlotEnd(Fields(Pad2(t.date.month), '/', Pad2(t.date.day)), Fields(Pad2(t.hour), ':', Pad2(t.minute)))
  }

  /**
   * The date is "MM/DD" and the time "HH:mm", each field two decimal
   * digits reading back as the end reading's month, day, hour and minute.
   */
  lemma EndTimeLayout(date: DateInfo, time: TimeInfo, timeSlotMinutes: int)
    ensures var t := EndReading(date, time, timeSlotMinutes);
      var r := CalculateEndTime(date, time, timeSlotMinutes);
      |r.date| == 5 && r.date[2] == '/' && |r.time| == 5 && r.time[2] == ':' &&
      AllDigits(r.date[..2]) && AllDigits(r.date[3..]) && AllDigits(r.time[..2]) && AllDigits(r.time[3..]) &&
      DigitsValue(r.date[..2]) == t.date.month && DigitsValue(r.date[3..]) == t.date.day &&
      DigitsValue(r.time[..2]) == t.hour && DigitsValue(r.time[3..]) == t.minute
  {
    var t := EndReading(date, time, timeSlotMinutes);
    FieldsSlices(Pad2(t.date.month), '/', Pad2(t.date.day));
    FieldsSlices(Pad2(t.hour), ':', Pad2(t.minute));
  }

  /**
   * The output carries the month, day, hour and minute of the end and
   * nothing else: two ends give the same output exactly when those agree,
   * whatever their years.
   */
  lemma EndTimeIgnoresYear(d1: DateInfo, t1: TimeInfo, s1: int, d2: DateInfo, t2: TimeInfo, s2: int)
    ensures var e1 := EndReading(d1, t1, s1);
      var e2 := EndReading(d2, t2, s2);
      CalculateEndTime(d1, t1, s1) == CalculateEndTime(d2, t2, s2) <==>
        (e1.date.month == e2.date.month && e1.date.day == e2.date.day &&
         e1.hour == e2.hour && e1.minute == e2.minute)
  {
    EndTimeLayout(d1, t1, s1);
    EndTimeLayout(d2, t2, s2);
  }

  /**
   * For a valid start from year 100 on, the end is the start plus the slot,
   * carrying into the hour, day, month and year.
   */
  lemma EndIsStartPlusSlot(date: DateInfo, time: TimeInfo, timeSlotMinutes: int)
    requires Civil.ValidDateTime(Civil.DateTime(date, time.hour, time.minute)) && !(0 <= date.year <= 99)
    ensures Civil.Minutes(EndReading(date, time, timeSlotMinutes)) ==
      Civil.Minutes(Civil.DateTime(date, time.hour, time.minute)) + timeSlotMinutes
  {
    Civil.MakeMinutesOfValid(Civil.DateTime(date, time.hour, time.minute));
  }

  /** A zero-length slot ends at the start itself. */
  lemma ZeroSlotEndsAtStart(date: DateInfo, time: TimeInfo)
    requires Civil.ValidDateTime(Civil.DateTime(date, time.hour, time.minute)) && !(0 <= date.year <= 99)
    ensures EndReading(date, time, 0) == Civil.DateTime(date, time.hour, time.minute)
  {
    var start := Civil.DateTime(date, time.hour, time.minute);
    Civil.MakeMinutesOfValid(start);
    Civil.DateTimeOfMinutesInverse(start);
  }
}
