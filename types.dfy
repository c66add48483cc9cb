/**
 * The front end's value types (app/components/types.ts): schedules, selected
 * schedules and catalog events; the string key that identifies a selected
 * schedule; and the two event-key schemas.
 */
module Types {
  import opened Wrappers
  import opened Text
  import Civil

  type DateInfo = Civil.Date

  datatype TimeInfo = TimeInfo(hour: int, minute: int)

  datatype Schedule = Schedule(date: DateInfo, time: TimeInfo)

  /** A user's pick: an event uid and one of that event's schedules. */
  datatype SelectedSchedule = SelectedSchedule(uid: string, schedule: Schedule)

  /** A catalog event as the front end holds it. */
  datatype Event = Event(
    title: string,
    uid: string,
    platform: seq<string>,
    image: string,
    floor: Option<string>,
    schedules: seq<Schedule>)

  // ---------------------------------------------------------------------
  // createEventKey
  // ---------------------------------------------------------------------

  /** The numbers of a key part, each rendered by `String` and joined by "-". */
  function DashJoined(xs: seq<int>): string {
    if |xs| == 0 then ""
    else if |xs| == 1 then IntToString(xs[0])
    else IntToString(xs[0]) + "-" + DashJoined(xs[1..])
  }

  /** `${uid}_${year}-${month}-${day}_${hour}-${minute}` */
  function CreateEventKey(uid: string, date: DateInfo, time: TimeInfo): string {
    uid + "_" + DashJoined([date.year, date.month, date.day]) + "_" + DashJoined([time.hour, time.minute])
  }

  /** The key of a selected schedule, as every selection handler computes it. */
  function KeyOf(s: SelectedSchedule): string {
    CreateEventKey(s.uid, s.schedule.date, s.schedule.time)
  }

  /** The key is the template with the five numbers in decimal. */
  lemma CreateEventKeyLayout(uid: string, date: DateInfo, time: TimeInfo)
    ensures CreateEventKey(uid, date, time) ==
      uid + "_" + IntToString(date.year) + "-" + IntToString(date.month) + "-" + IntToString(date.day)
      + "_" + IntToString(time.hour) + "-" + IntToString(time.minute)
  {
    var y, m, d := IntToString(date.year), IntToString(date.month), IntToString(date.day);
    var h, n := IntToString(time.hour), IntToString(time.minute);
    DashJoinedTwo(time.hour, time.minute);
    DashJoinedThree(date.year, date.month, date.day);
    KeyTemplate(uid, y, m, d, h, n);
  }

  lemma KeyTemplate(uid: string, y: string, m: string, d: string, h: string, n: string)
    ensures uid + "_" + (y + "-" + m + "-" + d) + "_" + (h + "-" + n) ==
      uid + "_" + y + "-" + m + "-" + d + "_" + h + "-" + n
  {
  }

  lemma DashJoinedTwo(a: int, b: int)
    ensures DashJoined([a, b]) == IntToString(a) + "-" + IntToString(b)
  {
    assert [a, b][1..] == [b];
  }

  lemma DashJoinedThree(a: int, b: int, c: int)
    ensures DashJoined([a, b, c]) == IntToString(a) + "-" + IntToString(b) + "-" + IntToString(c)
  {
    assert [a, b, c][1..] == [b, c];
    DashJoinedTwo(b, c);
  }

  // Reading a key back, which shows that different schedules get different keys.

  /** Length of the longest prefix of s made of decimal digits. */
  function DigitPrefixLength(s: string): (n: nat)
    ensures n <= |s| && AllDigits(s[..n]) && (n < |s| ==> !IsDigit(s[n]))
  {
    if |s| == 0 || !IsDigit(s[0]) then 0
    else
      var n := 1 + DigitPrefixLength(s[1..]);
      assert s[..n] == [s[0]] + s[1..][..n - 1];
      n
  }

  lemma {:induction false} DigitPrefixOfDigits(d: string, rest: string)
    requires AllDigits(d) && (rest == [] || !IsDigit(rest[0]))
    ensures DigitPrefixLength(d + rest) == |d|
  {
    if |d| > 0 {
      assert (d + rest)[1..] == d[1..] + rest;
      DigitPrefixOfDigits(d[1..], rest);
    }
  }

  /** Reads a run of decimal digits at the start of s. */
  function ReadNat(s: string): Option<(nat, string)> {
    var n := DigitPrefixLength(s);
    if n == 0 then None else Some((DigitsValue(s[..n]), s[n..]))
  }

  /** Reads an optionally negative decimal integer at the start of s. */
  function ReadInt(s: string): Option<(int, string)> {
    if |s| > 0 && s[0] == '-' then
      var r := ReadNat(s[1..]);
      if r.None? then None else Some((-(r.value.0 as int), r.value.1))
    else
      var r := ReadNat(s);
      if r.None? then None else Some((r.value.0 as int, r.value.1))
  }

  lemma ReadNatOfDigits(d: string, rest: string)
    requires |d| > 0 && AllDigits(d) && (rest == [] || !IsDigit(rest[0]))
    ensures ReadNat(d + rest) == Some((DigitsValue(d), rest))
  {
    var s := d + rest;
    DigitPrefixOfDigits(d, rest);
    assert s[..|d|] == d && s[|d|..] == rest;
  }

  lemma ReadIntOfNegated(s: string, v: nat, rest: string)
    requires |s| > 0 && s[0] == '-' && ReadNat(s[1..]) == Some((v, rest))
    ensures ReadInt(s) == Some((-(v as int), rest))
  {
  }

  /** A digit run with no sign reads as its value. */
  lemma ReadIntOfDigits(d: string, rest: string)
    requires |d| > 0 && AllDigits(d) && (rest == [] || !IsDigit(rest[0]))
    ensures ReadInt(d + rest) == Some((DigitsValue(d) as int, rest))
  {
    assert (d + rest)[0] == d[0];
    ReadNatOfDigits(d, rest);
  }

  lemma ReadIntOfIntToString(i: int, rest: string)
    requires rest == [] || !IsDigit(rest[0])
    ensures ReadInt(IntToString(i) + rest) == Some((i, rest))
  {
    if i < 0 {
      var d := NatToString(-i);
      var s := IntToString(i) + rest;
      assert s == ['-'] + (d + rest);
      assert s[1..] == d + rest;
      ReadNatOfDigits(d, rest);
      DigitsValueOfNatToString(-i);
      ReadIntOfNegated(s, -i, rest);
    } else {
      ReadIntOfDigits(NatToString(i), rest);
      DigitsValueOfNatToString(i);
    }
  }

  /** Reads integers separated by "-" that fill the whole of s. */
  function ReadDashJoined(s: string): Option<seq<int>>
    decreases |s|
  {
    match ReadInt(s)
    case None => None
    case Some((v, rest)) =>
      if rest == "" then Some([v])
      else if rest[0] == '-' && |rest| < |s| then
        match ReadDashJoined(rest[1..])
        case None => None
        case Some(vs) => Some([v] + vs)
      else None
  }

  lemma {:induction false} ReadDashJoinedInverse(xs: seq<int>)
    requires |xs| > 0
    ensures ReadDashJoined(DashJoined(xs)) == Some(xs)
  {
    if |xs| == 1 {
      ReadIntOfIntToString(xs[0], "");
      assert IntToString(xs[0]) + "" == IntToString(xs[0]) == DashJoined(xs);
      assert ReadInt(DashJoined(xs)) == Some((xs[0], ""));
      assert [xs[0]] == xs;
    } else {
      var tail := "-" + DashJoined(xs[1..]);
      assert DashJoined(xs) == IntToString(xs[0]) + tail;
      ReadIntOfIntToString(xs[0], tail);
      ReadDashJoinedInverse(xs[1..]);
      ReadDashJoinedCons(DashJoined(xs), xs[0], DashJoined(xs[1..]), xs[1..]);
      assert [xs[0]] + xs[1..] == xs;
    }
  }

  /** A number, a dash and a readable rest read as the number followed by the rest's numbers. */
  lemma ReadDashJoinedCons(s: string, v: int, t: string, vs: seq<int>)
    requires ReadInt(s) == Some((v, "-" + t)) && ReadDashJoined(t) == Some(vs)
    ensures ReadDashJoined(s) == Some([v] + vs)
  {
    ReadIntShortens(s);
    assert ("-" + t)[1..] == t;
  }

  /** Reading a number consumes at least one character. */
  lemma ReadIntShortens(s: string)
    requires ReadInt(s).Some?
    ensures |ReadInt(s).value.1| < |s|
  {
  }

  lemma {:induction false} DashJoinedHasNoUnderscore(xs: seq<int>)
    ensures '_' !in DashJoined(xs)
  {
    if |xs| > 1 {
      DashJoinedHasNoUnderscore(xs[1..]);
    }
    if |xs| > 0 {
      var s := IntToString(xs[0]);
      assert forall i :: 0 <= i < |s| ==> s[i] == '-' || IsDigit(s[i]);
    }
  }

  /** Splits s at its last occurrence of c. */
  function SplitLast(s: string, c: char): Option<(string, string)> {
    if |s| == 0 then None
    else if s[|s| - 1] == c then Some((s[..|s| - 1], ""))
    else
      match SplitLast(s[..|s| - 1], c)
      case None => None
      case Some((a, b)) => Some((a, b + [s[|s| - 1]]))
  }

  lemma {:induction false} SplitLastOf(a: string, c: char, b: string)
    requires c !in b
    ensures SplitLast(a + [c] + b, c) == Some((a, b))
  {
    var s := a + [c] + b;
    if |b| == 0 {
      assert s[..|s| - 1] == a;
    } else {
      assert s[..|s| - 1] == a + [c] + b[..|b| - 1];
      SplitLastOf(a, c, b[..|b| - 1]);
      assert b[..|b| - 1] + [b[|b| - 1]] == b;
    }
  }

  /** Recovers uid, date and time from a key built by CreateEventKey. */
  function ReadEventKey(key: string): Option<(string, DateInfo, TimeInfo)> {
    match SplitLast(key, '_')
    case None => None
    case Some((front, timePart)) =>
      match SplitLast(front, '_')
      case None => None
      case Some((uid, datePart)) =>
        match (ReadDashJoined(datePart), ReadDashJoined(timePart))
        case (Some(ds), Some(ts)) =>
          if |ds| == 3 && |ts| == 2 then Some((uid, Civil.Date(ds[0], ds[1], ds[2]), TimeInfo(ts[0], ts[1])))
          else None
        case _ => None
  }

  lemma ReadEventKeyInverse(uid: string, date: DateInfo, time: TimeInfo)
    ensures ReadEventKey(CreateEventKey(uid, date, time)) == Some((uid, date, time))
  {
    var dp := DashJoined([date.year, date.month, date.day]);
    var tp := DashJoined([time.hour, time.minute]);
    DashJoinedHasNoUnderscore([date.year, date.month, date.day]);
    DashJoinedHasNoUnderscore([time.hour, time.minute]);
    assert CreateEventKey(uid, date, time) == (uid + "_" + dp) + ['_'] + tp;
    SplitLastOf(uid + "_" + dp, '_', tp);
    assert uid + "_" + dp == uid + ['_'] + dp;
    SplitLastOf(uid, '_', dp);
    ReadDashJoinedInverse([date.year, date.month, date.day]);
    ReadDashJoinedInverse([time.hour, time.minute]);
  }

  /** Two selections share a key exactly when they are the same selection. */
  lemma KeyOfInjective(a: SelectedSchedule, b: SelectedSchedule)
    ensures KeyOf(a) == KeyOf(b) <==> a == b
  {
    if KeyOf(a) == KeyOf(b) {
      ReadEventKeyInverse(a.uid, a.schedule.date, a.schedule.time);
      ReadEventKeyInverse(b.uid, b.schedule.date, b.schedule.time);
    }
  }

  // ---------------------------------------------------------------------
  // eventKeySchema: /^(.+)-(\d+)\/(\d+)-(\d+):(\d+)$/ plus range checks
  // ---------------------------------------------------------------------

  /** The characters that `.` in a JavaScript regular expression does not match. */
  predicate IsLineTerminator(c: char) {
    c == '\n' || c == '\r' || c == '\U{2028}' || c == '\U{2029}'
  }

  /** The five capture groups of the event-key pattern. */
  datatype KeyParts = KeyParts(title: string, month: string, day: string, hour: string, minute: string)

  function Assemble(p: KeyParts): string {
    p.title + "-" + p.month + "/" + p.day + "-" + p.hour + ":" + p.minute
  }

  /** What each capture group of the pattern may hold. */
  predicate WellFormedParts(p: KeyParts) {
    && |p.title| > 0 && (forall i :: 0 <= i < |p.title| ==> !IsLineTerminator(p.title[i]))
    && |p.month| > 0 && AllDigits(p.month)
    && |p.day| > 0 && AllDigits(p.day)
    && |p.hour| > 0 && AllDigits(p.hour)
    && |p.minute| > 0 && AllDigits(p.minute)
  }

  /** Length of the longest suffix of s made of decimal digits. */
  function DigitSuffixLength(s: string): (n: nat)
    ensures n <= |s| && AllDigits(s[|s| - n..]) && (n < |s| ==> !IsDigit(s[|s| - n - 1]))
  {
    if |s| == 0 || !IsDigit(s[|s| - 1]) then 0
    else
      var n := 1 + DigitSuffixLength(s[..|s| - 1]);
      assert s[|s| - n..] == s[..|s| - 1][|s| - n..] + [s[|s| - 1]];
      n
  }

  lemma {:induction false} DigitSuffixOfDigits(front: string, d: string)
    requires AllDigits(d) && (front == [] || !IsDigit(front[|front| - 1]))
    ensures DigitSuffixLength(front + d) == |d|
  {
    if |d| > 0 {
      assert (front + d)[..|front + d| - 1] == front + d[..|d| - 1];
      DigitSuffixOfDigits(front, d[..|d| - 1]);
    }
  }

  /** Splits s into a front, the separator sep and a final non-empty run of digits. */
  function SplitDigitsAfter(s: string, sep: char): Option<(string, string)> {
    var n := DigitSuffixLength(s);
    if 0 < n < |s| && s[|s| - n - 1] == sep then Some((s[..|s| - n - 1], s[|s| - n..])) else None
  }

  lemma SplitDigitsAfterOf(front: string, sep: char, d: string)
    requires |d| > 0 && AllDigits(d) && !IsDigit(sep)
    ensures SplitDigitsAfter(front + [sep] + d, sep) == Some((front, d))
  {
    var s := front + [sep] + d;
    assert s == (front + [sep]) + d;
    DigitSuffixOfDigits(front + [sep], d);
    assert s[..|s| - |d| - 1] == front;
    assert s[|s| - |d|..] == d;
  }

  /** A split puts the string back together from its front, the separator and a run of digits. */
  lemma SplitDigitsAfterSome(s: string, sep: char)
    requires SplitDigitsAfter(s, sep).Some?
    ensures var (front, d) := SplitDigitsAfter(s, sep).value;
      s == front + [sep] + d && |d| > 0 && AllDigits(d)
  {
    var n := DigitSuffixLength(s);
    assert s == s[..|s| - n - 1] + [sep] + s[|s| - n..];
  }

  /** Matches the event-key pattern, returning the capture groups. */
  function MatchEventKey(s: string): Option<KeyParts> {
    match SplitDigitsAfter(s, ':')
    case None => None
    case Some((r1, minute)) =>
      match SplitDigitsAfter(r1, '-')
      case None => None
      case Some((r2, hour)) =>
        match SplitDigitsAfter(r2, '/')
        case None => None
        case Some((r3, day)) =>
          match SplitDigitsAfter(r3, '-')
          case None => None
          case Some((title, month)) =>
            if |title| > 0 && forall i :: 0 <= i < |title| ==> !IsLineTerminator(title[i])
            then Some(KeyParts(title, month, day, hour, minute))
            else None
  }

  /** Every match is a decomposition of the string into well-formed groups. */
  lemma MatchEventKeySound(s: string)
    requires MatchEventKey(s).Some?
    ensures WellFormedParts(MatchEventKey(s).value) && Assemble(MatchEventKey(s).value) == s
  {
    var p := MatchEventKey(s).value;
    var r1 := SplitDigitsAfter(s, ':').value.0;
    SplitDigitsAfterSome(s, ':');
    var r2 := SplitDigitsAfter(r1, '-').value.0;
    SplitDigitsAfterSome(r1, '-');
    var r3 := SplitDigitsAfter(r2, '/').value.0;
    SplitDigitsAfterSome(r2, '/');
    SplitDigitsAfterSome(r3, '-');
    assert r3 == p.title + "-" + p.month;
    assert r2 == r3 + "/" + p.day;
    assert r1 == r2 + "-" + p.hour;
    assert s == r1 + ":" + p.minute;
  }

  /**
   * Every well-formed decomposition is found, whatever the title holds
   * (dashes, slashes, colons or digits included): the pattern's groups are
   * determined by the string.
   */
  lemma MatchEventKeyComplete(p: KeyParts)
    requires WellFormedParts(p)
    ensures MatchEventKey(Assemble(p)) == Some(p)
  {
    var r3 := p.title + "-" + p.month;
    var r2 := r3 + "/" + p.day;
    var r1 := r2 + "-" + p.hour;
    assert Assemble(p) == r1 + [':'] + p.minute;
    SplitDigitsAfterOf(r1, ':', p.minute);
    assert r1 == r2 + ['-'] + p.hour;
    SplitDigitsAfterOf(r2, '-', p.hour);
    assert r2 == r3 + ['/'] + p.day;
    SplitDigitsAfterOf(r3, '/', p.day);
    assert r3 == p.title + ['-'] + p.month;
    SplitDigitsAfterOf(p.title, '-', p.month);
  }

  /** The refine predicate of eventKeySchema, applied to the groups. */
  predicate InRange(p: KeyParts)
    requires WellFormedParts(p)
  {
    && 1 <= DigitsValue(p.month) <= 12
    && 1 <= DigitsValue(p.day) <= 31
    && 0 <= DigitsValue(p.hour) <= 23
    && 0 <= DigitsValue(p.minute) <= 59
  }

  /** eventKeySchema's verdict on a string. */
  predicate EventKeyAccepted(s: string) {
    match MatchEventKey(s)
    case None => false
    case Some(p) =>
      MatchEventKeySound(s);
      |p.title| > 0 && InRange(p)
  }

  /** Accepted strings are exactly the well-formed, in-range decompositions. */
  lemma EventKeyAcceptedIff(s: string)
    ensures EventKeyAccepted(s) <==> exists p :: WellFormedParts(p) && Assemble(p) == s && InRange(p)
  {
    if EventKeyAccepted(s) {
      MatchEventKeySound(s);
      assert WellFormedParts(MatchEventKey(s).value);
    }
    if exists p :: WellFormedParts(p) && Assemble(p) == s && InRange(p) {
      var p :| WellFormedParts(p) && Assemble(p) == s && InRange(p);
      MatchEventKeyComplete(p);
    }
  }

  /**
   * For a title the pattern's `.+` can match, the key is accepted exactly
   * when the four numbers are in range.
   */
  lemma EventKeyTemplateIff(title: string, month: nat, day: nat, hour: nat, minute: nat)
    requires |title| > 0 && forall i :: 0 <= i < |title| ==> !IsLineTerminator(title[i])
    ensures EventKeyAccepted(title + "-" + NatToString(month) + "/" + NatToString(day) + "-"
                             + NatToString(hour) + ":" + NatToString(minute))
        <==> 1 <= month <= 12 && 1 <= day <= 31 && hour <= 23 && minute <= 59
  {
    var p := KeyParts(title, NatToString(month), NatToString(day), NatToString(hour), NatToString(minute));
    var s := title + "-" + NatToString(month) + "/" + NatToString(day) + "-"
             + NatToString(hour) + ":" + NatToString(minute);
    assert s == Assemble(p);
    assert WellFormedParts(p);
    MatchEventKeyComplete(p);
    assert MatchEventKey(s) == Some(p);
    DigitsValueOfNatToString(month);
    DigitsValueOfNatToString(day);
    DigitsValueOfNatToString(hour);
    DigitsValueOfNatToString(minute);
    assert EventKeyAccepted(s) == InRange(p);
  }

  // ---------------------------------------------------------------------
  // parseEventKey
  // ---------------------------------------------------------------------

  const InvalidEventKeyMessage: string := "Invalid event key format. Expected: uid-MM/DD-HH:mm"

  /** The fields parsedEventKeySchema expects: an object, never a string. */
  datatype ParsedEventKey = ParsedEventKey(uid: string, date: DateInfo, time: TimeInfo)

  /**
   * parseEventKey hands its string argument to an object schema, so the
   * schema's safeParse fails on every input and the function always throws.
   */
  function ParseEventKey(key: string): (r: Result<ParsedEventKey, string>)
    ensures r == Failure(InvalidEventKeyMessage)
  {
    Failure(InvalidEventKeyMessage)
  }
}
