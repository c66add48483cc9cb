/**
 * The schedule-sharing codec (app/composables/useScheduleShare.ts). Each
 * selected schedule becomes three 16-bit code units: the base-36 value of
 * the first three characters of its event uid, its day offset from
 * 1 January 2024 and its minutes since midnight. The code units are handed
 * to an LZ-based URL-safe compressor; decoding reverses the steps and
 * resolves the short uid against the catalog by prefix, first match wins.
 */
module ScheduleShare {
  import opened Wrappers
  import opened Text
  import opened Civil
  import opened Types

  /** One UTF-16 code unit of a JavaScript string. */
  type CodeUnit = x: int | 0 <= x < 0x1_0000

  /** A JavaScript number as the codec can meet it: an integer or NaN. */
  datatype Num = Finite(v: int) | NaN

  // ---------------------------------------------------------------------
  // dateToJulian / julianToDate
  // ---------------------------------------------------------------------

  /**
   * dateToJulian: the day of `Date.UTC(year, month - 1, day)` counted from
   * 1 January 2024. Out-of-range months and days carry over as in
   * `Date.UTC`, and a year from 0 to 99 means 1900 plus that year.
   */
  function DateToJulian(date: DateInfo): int {
    MakeDay(FullYear(date.year), date.month - 1, date.day)
  }

  /** julianToDate: the UTC calendar date of the given day offset. */
  function JulianToDate(julian: int): (date: DateInfo)
    ensures ValidDate(date) && DayNumber(date) == julian
  {
    DateOfDay(julian)
  }

  /** The base date is day 0. */
  lemma DateToJulianOfBase()
    ensures DateToJulian(Date(2024, 1, 1)) == 0
  {
  }

  /** Outside years 0..99 a valid date's offset is its day number. */
  lemma DateToJulianOfValid(date: DateInfo)
    requires ValidDate(date) && !(0 <= date.year <= 99)
    ensures DateToJulian(date) == DayNumber(date)
  {
    MakeDayOfValidDate(date);
  }

  /** julianToDate inverts dateToJulian on every valid date outside years 0..99. */
  lemma JulianRoundTrip(date: DateInfo)
    requires ValidDate(date) && !(0 <= date.year <= 99)
    ensures JulianToDate(DateToJulian(date)) == date
  {
    DateToJulianOfValid(date);
    DateOfDayNumber(date);
  }

  /** dateToJulian inverts julianToDate on every offset from 1 January 100 on. */
  lemma DateToJulianRoundTrip(julian: int)
    requires julian >= DayNumber(Date(100, 1, 1))
    ensures DateToJulian(JulianToDate(julian)) == julian
  {
    var d := JulianToDate(julian);
    if d.year < 100 {
      DayNumberBounds(d);
      YearStartMonotone(d.year, 100);
    }
    DateToJulianOfValid(d);
  }

  /** Consecutive calendar days map to consecutive offsets. */
  lemma DateToJulianNextDay(date: DateInfo)
    requires ValidDate(date) && date.year >= 100
    ensures DateToJulian(NextDay(date)) == DateToJulian(date) + 1
  {
    NextDayNumber(date);
    DateToJulianOfValid(date);
    DateToJulianOfValid(NextDay(date));
  }

  /**
   * A two-digit year is read as 19xx, so such a date comes back a
   * multiple of a hundred years later than it went in.
   */
  lemma TwoDigitYearsShift(date: DateInfo)
    requires ValidDate(date) && 0 <= date.year <= 99
    requires !(date.year == 0 && date.month == 2 && date.day == 29)
    ensures JulianToDate(DateToJulian(date)) == Date(1900 + date.year, date.month, date.day)
  {
    var shifted := Date(1900 + date.year, date.month, date.day);
    assert ValidDate(shifted);
    MakeDayOfValidDate(shifted);
    DateOfDayNumber(shifted);
  }

  /** For a month within 1..12 the month never carries into the year. */
  lemma DateToJulianInMonth(date: DateInfo)
    requires 1 <= date.month <= 12
    ensures DateToJulian(date)
         == YearStart(FullYear(date.year)) + MonthStart(FullYear(date.year), date.month) + date.day - 1
  {
    var m0 := date.month - 1;
    assert m0 / 12 == 0 && m0 % 12 == m0;
  }

  /** Only dates from the base date on get a non-negative offset. */
  lemma NonNegativeOffsetYear(date: DateInfo)
    requires ValidDate(date)
    ensures DateToJulian(date) >= 0 ==> date.year >= BaseYear
  {
    var fy := FullYear(date.year);
    DateToJulianInMonth(date);
    if fy < BaseYear {
      YearStartBeforeBase(fy);
      YearStartStep(fy);
      assert MonthStart(fy, date.month) + date.day - 1 < 366 + 31;
      assert YearStart(fy) <= -365;
    }
  }

  // ---------------------------------------------------------------------
  // encodeBinaryData / decodeBinaryData
  // ---------------------------------------------------------------------

  /** ToUint16 (ECMA-262 section 7.1.9): what a Uint16Array stores for a number. */
  function ToUint16(x: Num): CodeUnit {
    match x
    case NaN => 0
    case Finite(v) => v % 0x1_0000
  }

  /** encodeBinaryData: `String.fromCharCode(...new Uint16Array(rows.flat()))`. */
  function EncodeBinaryData(rows: seq<seq<Num>>): seq<CodeUnit> {
    var flat := Flatten(rows);
    seq(|flat|, i requires 0 <= i < |flat| => ToUint16(flat[i]))
  }

  /** One code unit per number, in row-major order, each stored modulo 65536. */
  lemma EncodeBinaryDataLayout(rows: seq<seq<Num>>)
    requires Uniform(rows, 3)
    ensures |EncodeBinaryData(rows)| == 3 * |rows|
    ensures forall i, j :: 0 <= i < |rows| && 0 <= j < 3 ==>
      EncodeBinaryData(rows)[3 * i + j] == ToUint16(rows[i][j])
  {
    FlattenUniform(rows, 3);
  }

  /** The rows decodeBinaryData regroups a code-unit string into. */
  function Triples(s: seq<CodeUnit>): (rows: seq<seq<CodeUnit>>)
    ensures |rows| == |s| / 3 && Uniform(rows, 3)
    ensures forall i, j :: 0 <= i < |rows| && 0 <= j < 3 ==> rows[i][j] == s[3 * i + j]
  {
    seq(|s| / 3, i requires 0 <= i < |s| / 3 => s[3 * i..3 * i + 3])
  }

  /**
   * decodeBinaryData: copies the code units into an array, then returns
   * floor(length / 3) triples, triple i being units 3i..3i+2; one or two
   * trailing units are dropped.
   */
  method DecodeBinaryData(binary: seq<CodeUnit>) returns (rows: seq<seq<CodeUnit>>)
    ensures |rows| == |binary| / 3 && Uniform(rows, 3)
    ensures forall i :: 0 <= i < |rows| ==> rows[i] == binary[3 * i..3 * i + 3]
    ensures rows == Triples(binary)
  {
    var numbers: seq<CodeUnit> := [];
    var i := 0;
    while i < |binary|
      invariant 0 <= i <= |binary|
      invariant numbers == binary[..i]
    {
      numbers := numbers + [binary[i]];
      i := i + 1;
    }
    assert numbers == binary;
    rows := seq(|numbers| / 3, k requires 0 <= k < |numbers| / 3 => numbers[3 * k..3 * k + 3]);
  }

  /** Unsigned 16-bit rows survive encoding and decoding unchanged. */
  lemma BinaryRoundTrip(rows: seq<seq<Num>>)
    requires Uniform(rows, 3)
    requires forall i, j :: 0 <= i < |rows| && 0 <= j < 3 ==> rows[i][j].Finite? && 0 <= rows[i][j].v < 0x1_0000
    ensures |Triples(EncodeBinaryData(rows))| == |rows|
    ensures forall i, j :: 0 <= i < |rows| && 0 <= j < 3 ==> Triples(EncodeBinaryData(rows))[i][j] == rows[i][j].v
  {
    EncodeBinaryDataLayout(rows);
  }

  // ---------------------------------------------------------------------
  // Short uids: Number.parseInt(uid.slice(0, 3), 36) and toString(36)
  // ---------------------------------------------------------------------

  /** The white space and line terminators that parseInt skips (ECMA-262 sections 12.2 and 12.3). */
  predicate IsJsWhiteSpace(c: char) {
    c == '\t' || c == '\U{000B}' || c == '\U{000C}' || c == ' ' || c == '\U{00A0}' || c == '\U{FEFF}'
    || c == '\U{1680}' || ('\U{2000}' <= c <= '\U{200A}') || c == '\U{202F}' || c == '\U{205F}'
    || c == '\U{3000}' || c == '\n' || c == '\r' || c == '\U{2028}' || c == '\U{2029}'
  }

  function TrimStart(s: string): (r: string)
    ensures |r| <= |s|
  {
    if |s| > 0 && IsJsWhiteSpace(s[0]) then TrimStart(s[1..]) else s
  }

  predicate IsBase36Digit(c: char) {
    ('0' <= c <= '9') || ('a' <= c <= 'z') || ('A' <= c <= 'Z')
  }

  predicate IsLowerBase36Digit(c: char) {
    ('0' <= c <= '9') || ('a' <= c <= 'z')
  }

  function Base36DigitValue(c: char): (v: int)
    requires IsBase36Digit(c)
    ensures 0 <= v < 36
  {
    if '0' <= c <= '9' then c as int - '0' as int
    else if 'a' <= c <= 'z' then c as int - 'a' as int + 10
    else c as int - 'A' as int + 10
  }

  function Base36Char(d: int): (c: char)
    requires 0 <= d < 36
    ensures IsLowerBase36Digit(c) && Base36DigitValue(c) == d
  {
    if d < 10 then ('0' as int + d) as char else ('a' as int + d - 10) as char
  }

  function Base36PrefixLength(s: string): (n: nat)
    ensures n <= |s| && forall i :: 0 <= i < n ==> IsBase36Digit(s[i])
  {
    if |s| > 0 && IsBase36Digit(s[0]) then 1 + Base36PrefixLength(s[1..]) else 0
  }

  /** The value of a string of base-36 digits, most significant first. */
  function Base36Value(s: string): (v: nat)
    requires forall i :: 0 <= i < |s| ==> IsBase36Digit(s[i])
  {
    if |s| == 0 then 0 else Base36Value(s[..|s| - 1]) * 36 + Base36DigitValue(s[|s| - 1])
  }

  lemma {:induction false} Base36ValueBound(s: string)
    requires forall i :: 0 <= i < |s| ==> IsBase36Digit(s[i])
    ensures |s| <= 3 ==> Base36Value(s) < 46656
    ensures |s| <= 2 ==> Base36Value(s) < 1296
    ensures |s| <= 1 ==> Base36Value(s) < 36
  {
    if |s| > 0 {
      Base36ValueBound(s[..|s| - 1]);
    }
  }

  /**
   * `Number.parseInt(s, 36)` (ECMA-262 section 19.2.5): skip leading white
   * space, read an optional sign, then the longest run of base-36 digits
   * in either case; no digit at all gives NaN.
   */
  function ParseIntRadix36(s: string): Num {
    var t := TrimStart(s);
    var negative := |t| > 0 && t[0] == '-';
    var u := if |t| > 0 && (t[0] == '-' || t[0] == '+') then t[1..] else t;
    var n := Base36PrefixLength(u);
    if n == 0 then NaN
    else if negative then Finite(-(Base36Value(u[..n]) as int))
    else Finite(Base36Value(u[..n]))
  }

  /** `uid.slice(0, 3)` */
  function UidHead(uid: string): string {
    if |uid| <= 3 then uid else uid[..3]
  }

  /** The short-uid number compressSchedules stores for an event uid. */
  function UidFingerprint(uid: string): (r: Num)
    ensures r.Finite? ==> -46655 <= r.v <= 46655
  {
    var head := UidHead(uid);
    var t := TrimStart(head);
    var u := if |t| > 0 && (t[0] == '-' || t[0] == '+') then t[1..] else t;
    Base36ValueBound(u[..Base36PrefixLength(u)]);
    ParseIntRadix36(head)
  }

  /** `n.toString(36)` for a non-negative integer. */
  function ToBase36(n: nat): (s: string)
    ensures |s| >= 1
  {
    if n < 36 then [Base36Char(n)] else ToBase36(n / 36) + [Base36Char(n % 36)]
  }

  /** `uidNum.toString(36).padStart(3, "0")` */
  function ShortUid(n: CodeUnit): string {
    PadStart(ToBase36(n), 3, '0')
  }

  predicate IsShortUidText(p: string) {
    |p| == 3 && forall i :: 0 <= i < 3 ==> IsLowerBase36Digit(p[i])
  }

  /** Three lowercase base-36 digits are recovered from their stored number. */
  lemma ShortUidRoundTrip(p: string)
    requires IsShortUidText(p)
    ensures UidFingerprint(p).Finite? && 0 <= UidFingerprint(p).v < 46656
    ensures ShortUid(ToUint16(UidFingerprint(p))) == p
  {
    var a, b, c := Base36DigitValue(p[0]), Base36DigitValue(p[1]), Base36DigitValue(p[2]);
    var v := (a * 36 + b) * 36 + c;
    FingerprintOfShortUid(p);
    ShortUidOfText(p);
    ThreeDigitBound(a, b, c);
    ToUint16Small(v);
  }

  lemma ToUint16Small(v: int)
    requires 0 <= v < 0x1_0000
    ensures ToUint16(Finite(v)) == v
  {
  }

  lemma ThreeDigitBound(a: nat, b: nat, c: nat)
    requires a < 36 && b < 36 && c < 36
    ensures (a * 36 + b) * 36 + c < 46656
  {
    assert a * 36 <= 35 * 36;
    assert (a * 36 + b) * 36 <= 1295 * 36;
  }

  /** Padding the base-36 text of the digits' value gives the digits back. */
  lemma ShortUidOfText(p: string)
    requires IsShortUidText(p)
    ensures ShortUid((Base36DigitValue(p[0]) * 36 + Base36DigitValue(p[1])) * 36 + Base36DigitValue(p[2])) == p
  {
    ShortUidOfDigits(Base36DigitValue(p[0]), Base36DigitValue(p[1]), Base36DigitValue(p[2]));
    LowerDigitRoundTrip(p[0]);
    LowerDigitRoundTrip(p[1]);
    LowerDigitRoundTrip(p[2]);
    assert p == [p[0], p[1], p[2]];
  }

  /** parseInt reads three lowercase base-36 digits as their value. */
  lemma FingerprintOfShortUid(p: string)
    requires IsShortUidText(p)
    ensures UidFingerprint(p) ==
      Finite((Base36DigitValue(p[0]) * 36 + Base36DigitValue(p[1])) * 36 + Base36DigitValue(p[2]))
  {
    assert !IsJsWhiteSpace(p[0]) && p[0] != '-' && p[0] != '+';
    assert TrimStart(p) == p;
    assert Base36PrefixLength(p[2..]) == 1;
    assert Base36PrefixLength(p[1..]) == 2;
    assert Base36PrefixLength(p) == 3;
    assert p[..3] == p;
    assert UidHead(p) == p;
    Base36ValueThree(p);
  }

  lemma Base36ValueThree(p: string)
    requires |p| == 3 && forall i :: 0 <= i < 3 ==> IsBase36Digit(p[i])
    ensures Base36Value(p) == (Base36DigitValue(p[0]) * 36 + Base36DigitValue(p[1])) * 36 + Base36DigitValue(p[2])
  {
    assert p[..2][..1] == p[..1] && p[..1][..0] == [];
    assert Base36Value(p[..1]) == Base36DigitValue(p[0]);
    assert Base36Value(p[..2]) == Base36DigitValue(p[0]) * 36 + Base36DigitValue(p[1]);
  }

  lemma LowerDigitRoundTrip(c: char)
    requires IsLowerBase36Digit(c)
    ensures Base36Char(Base36DigitValue(c)) == c
  {
  }

  lemma DivMod36(q: nat, r: nat)
    requires r < 36
    ensures (q * 36 + r) / 36 == q && (q * 36 + r) % 36 == r
  {
  }

  /** The padded base-36 text of a three-digit value is its three digits. */
  lemma ShortUidOfDigits(a: nat, b: nat, c: nat)
    requires a < 36 && b < 36 && c < 36
    ensures ShortUid((a * 36 + b) * 36 + c) == [Base36Char(a), Base36Char(b), Base36Char(c)]
  {
    if a > 0 {
      ShortUidThree(a, b, c);
    } else if b > 0 {
      assert (a * 36 + b) * 36 + c == b * 36 + c;
      ShortUidTwo(b, c);
    } else {
      assert (a * 36 + b) * 36 + c == c;
      ShortUidOne(c);
    }
  }

  lemma ShortUidThree(a: nat, b: nat, c: nat)
    requires 0 < a < 36 && b < 36 && c < 36
    ensures ShortUid((a * 36 + b) * 36 + c) == [Base36Char(a), Base36Char(b), Base36Char(c)]
  {
    ToBase36Snoc(a, b);
    ToBase36Snoc(a * 36 + b, c);
  }

  lemma ShortUidTwo(b: nat, c: nat)
    requires 0 < b < 36 && c < 36
    ensures ShortUid(b * 36 + c) == ['0', Base36Char(b), Base36Char(c)]
  {
    ToBase36Snoc(b, c);
    PadOne(ToBase36(b * 36 + c));
  }

  lemma ShortUidOne(c: nat)
    requires c < 36
    ensures ShortUid(c) == ['0', '0', Base36Char(c)]
  {
    PadTwo(ToBase36(c));
  }

  /** Appending a digit multiplies by the radix and adds the digit. */
  lemma ToBase36Snoc(q: nat, r: nat)
    requires 0 < q && r < 36
    ensures ToBase36(q * 36 + r) == ToBase36(q) + [Base36Char(r)]
  {
    DivMod36(q, r);
  }

  lemma PadOne(s: string)
    requires |s| == 2
    ensures PadStart(s, 3, '0') == ['0', s[0], s[1]]
  {
  }

  lemma PadTwo(s: string)
    requires |s| == 1
    ensures PadStart(s, 3, '0') == ['0', '0', s[0]]
  {
  }

  /** The uids whose text starts with prefix, as events.filter collects them. */
  function WithPrefix(uids: seq<string>, prefix: string): (r: seq<string>)
    ensures forall u :: u in r ==> u in uids && StartsWith(u, prefix)
    ensures forall u :: u in uids && StartsWith(u, prefix) ==> u in r
  {
    if |uids| == 0 then []
    else if StartsWith(uids[0], prefix) then [uids[0]] + WithPrefix(uids[1..], prefix)
    else WithPrefix(uids[1..], prefix)
  }

  /** The first catalog uid that starts with prefix. */
  function FirstWithPrefix(uids: seq<string>, prefix: string): Option<string> {
    var matches := WithPrefix(uids, prefix);
    if |matches| == 0 then None else Some(matches[0])
  }

  /** FirstWithPrefix picks the earliest uid in catalog order that has the prefix. */
  lemma {:induction false} FirstWithPrefixIsFirst(uids: seq<string>, prefix: string)
    ensures FirstWithPrefix(uids, prefix).None? <==> forall k :: 0 <= k < |uids| ==> !StartsWith(uids[k], prefix)
    ensures FirstWithPrefix(uids, prefix).Some? ==>
      exists k :: 0 <= k < |uids| && uids[k] == FirstWithPrefix(uids, prefix).value
        && StartsWith(uids[k], prefix) && forall k' :: 0 <= k' < k ==> !StartsWith(uids[k'], prefix)
  {
    if |uids| > 0 {
      FirstWithPrefixIsFirst(uids[1..], prefix);
      if !StartsWith(uids[0], prefix) {
        assert WithPrefix(uids, prefix) == WithPrefix(uids[1..], prefix);
        if FirstWithPrefix(uids, prefix).Some? {
          var k :| 0 <= k < |uids[1..]| && uids[1..][k] == FirstWithPrefix(uids, prefix).value
            && StartsWith(uids[1..][k], prefix) && forall k' :: 0 <= k' < k ==> !StartsWith(uids[1..][k'], prefix);
          assert uids[k + 1] == uids[1..][k];
          forall k' | 0 <= k' < k + 1 ensures !StartsWith(uids[k'], prefix) {
            if k' > 0 { assert uids[k'] == uids[1..][k' - 1]; }
          }
        } else {
          forall k | 0 <= k < |uids| ensures !StartsWith(uids[k], prefix) {
            if k > 0 { assert uids[k] == uids[1..][k - 1]; }
          }
        }
      }
    }
  }

  // ---------------------------------------------------------------------
  // compressSchedules / decompressSchedules
  // ---------------------------------------------------------------------

  /**
   * The LZ-string pair compressToEncodedURIComponent and
   * decompressFromEncodedURIComponent, whose internals are not modelled;
   * decompression yields None where the library returns null.
   */
  datatype Lz = Lz(compress: seq<CodeUnit> -> string, decompress: string -> Option<seq<CodeUnit>>)

  /** The one property of the compressor the codec relies on. */
  ghost predicate Invertible(lz: Lz) {
    forall s :: lz.decompress(lz.compress(s)) == Some(s)
  }

  /** The triple compressSchedules builds for one selection. */
  function Triple(x: SelectedSchedule): seq<Num> {
    [UidFingerprint(x.uid), Finite(DateToJulian(x.schedule.date)), Finite(x.schedule.time.hour * 60 + x.schedule.time.minute)]
  }

  function Payload(schedules: seq<SelectedSchedule>): seq<CodeUnit> {
    EncodeBinaryData(seq(|schedules|, i requires 0 <= i < |schedules| => Triple(schedules[i])))
  }

  /** The payload holds, per selection and in order, its three stored numbers. */
  lemma PayloadLayout(schedules: seq<SelectedSchedule>)
    ensures |Payload(schedules)| == 3 * |schedules|
    ensures forall i :: 0 <= i < |schedules| ==>
      && Payload(schedules)[3 * i] == ToUint16(UidFingerprint(schedules[i].uid))
      && Payload(schedules)[3 * i + 1] == ToUint16(Finite(DateToJulian(schedules[i].schedule.date)))
      && Payload(schedules)[3 * i + 2]
         == ToUint16(Finite(schedules[i].schedule.time.hour * 60 + schedules[i].schedule.time.minute))
  {
    var rows := seq(|schedules|, i requires 0 <= i < |schedules| => Triple(schedules[i]));
    EncodeBinaryDataLayout(rows);
    forall i | 0 <= i < |schedules|
      ensures Payload(schedules)[3 * i] == ToUint16(rows[i][0])
      ensures Payload(schedules)[3 * i + 1] == ToUint16(rows[i][1])
      ensures Payload(schedules)[3 * i + 2] == ToUint16(rows[i][2])
    {
      assert 3 * i + 0 == 3 * i;
    }
  }

  /** compressSchedules */
  function CompressSchedules(schedules: seq<SelectedSchedule>, lz: Lz): string {
    lz.compress(Payload(schedules))
  }

  datatype ShareError = InvalidPayload | EventNotFound(shortUid: string)

  /** The message of the error decompressSchedules throws. */
  function Message(e: ShareError): string {
    match e
    case InvalidPayload => "無効な圧縮データです"
    case EventNotFound(shortUid) => "該当するイベントが見つかりません: " + shortUid
  }

  /** The selection one decoded triple stands for, given the uid it resolved to. */
  function Rebuild(uid: string, t: seq<CodeUnit>): SelectedSchedule
    requires |t| == 3
  {
    SelectedSchedule(uid, Schedule(JulianToDate(t[1]), TimeInfo(t[2] / 60, t[2] % 60)))
  }

  /** The catalog uid a decoded triple's short uid resolves to, if any. */
  function Resolve(t: seq<CodeUnit>, uids: seq<string>): Option<string>
    requires |t| == 3
  {
    FirstWithPrefix(uids, ShortUid(t[0]))
  }

  /** The body of decoded.map: resolve the short uid, or throw. */
  function DecodeTriple(t: seq<CodeUnit>, uids: seq<string>): Result<SelectedSchedule, ShareError>
    requires |t| == 3
  {
    match Resolve(t, uids)
    case None => Failure(EventNotFound(ShortUid(t[0])))
    case Some(uid) => Success(Rebuild(uid, t))
  }

  /** Resolves each triple in order; the first unresolvable one ends the decoding. */
  function DecodeAll(rows: seq<seq<CodeUnit>>, uids: seq<string>): (r: Result<seq<SelectedSchedule>, ShareError>)
    requires Uniform(rows, 3)
    ensures r.Success? <==> forall i :: 0 <= i < |rows| ==> DecodeTriple(rows[i], uids).Success?
    ensures r.Success? ==> |r.value| == |rows|
    ensures r.Success? ==> forall i :: 0 <= i < |rows| ==> r.value[i] == DecodeTriple(rows[i], uids).value
  {
    if |rows| == 0 then Success([])
    else
      var head := DecodeTriple(rows[0], uids);
      var rest := DecodeAll(rows[1..], uids);
      assert forall k :: 1 <= k < |rows| ==> rows[k] == rows[1..][k - 1];
      if head.Failure? then Failure(head.error)
      else if rest.Failure? then Failure(rest.error)
      else Success([head.value] + rest.value)
  }

  /** A failed decoding reports the first triple whose short uid matches no event. */
  lemma {:induction false} DecodeAllFailure(rows: seq<seq<CodeUnit>>, uids: seq<string>)
    requires Uniform(rows, 3) && DecodeAll(rows, uids).Failure?
    ensures exists i :: (0 <= i < |rows|
      && Resolve(rows[i], uids).None?
      && (forall k :: 0 <= k < i ==> Resolve(rows[k], uids).Some?)
      && DecodeAll(rows, uids).error == EventNotFound(ShortUid(rows[i][0])))
  {
    var tail := rows[1..];
    if Resolve(rows[0], uids).Some? {
      DecodeAllFailure(tail, uids);
      var i :| 0 <= i < |tail| && Resolve(tail[i], uids).None?
        && (forall k :: 0 <= k < i ==> Resolve(tail[k], uids).Some?)
        && DecodeAll(tail, uids).error == EventNotFound(ShortUid(tail[i][0]));
      assert rows[i + 1] == tail[i];
      forall k | 0 <= k < i + 1 ensures Resolve(rows[k], uids).Some? {
        if k > 0 { assert rows[k] == tail[k - 1]; }
      }
    }
  }

  /**
   * decompressSchedules: a null or empty decompression is an invalid
   * payload; otherwise every triple is resolved as DecodeAll says.
   */
  function DecompressSchedules(compressed: string, uids: seq<string>, lz: Lz): Result<seq<SelectedSchedule>, ShareError> {
    match lz.decompress(compressed)
    case None => Failure(InvalidPayload)
    case Some(binary) =>
      if |binary| == 0 then Failure(InvalidPayload) else DecodeAll(Triples(binary), uids)
  }

  /** The invalid-payload error arises exactly when decompression yields null or "". */
  lemma DecompressInvalidIff(compressed: string, uids: seq<string>, lz: Lz)
    ensures DecompressSchedules(compressed, uids, lz) == Failure(InvalidPayload)
        <==> lz.decompress(compressed) == None || lz.decompress(compressed) == Some([])
  {
    match lz.decompress(compressed)
    case None =>
    case Some(binary) =>
      if |binary| > 0 {
        var r := DecodeAll(Triples(binary), uids);
        if r.Failure? {
          DecodeAllFailure(Triples(binary), uids);
        }
      }
  }

  /** An empty selection never survives sharing: its payload is the empty string. */
  lemma EmptySelectionIsInvalid(uids: seq<string>, lz: Lz)
    requires Invertible(lz)
    ensures DecompressSchedules(CompressSchedules([], lz), uids, lz) == Failure(InvalidPayload)
  {
    assert Payload([]) == [];
  }

  /** What a selection needs for sharing to give it back unchanged. */
  predicate Shareable(x: SelectedSchedule, uids: seq<string>) {
    && |x.uid| >= 3 && IsShortUidText(x.uid[..3])
    && FirstWithPrefix(uids, x.uid[..3]) == Some(x.uid)
    && ValidDate(x.schedule.date)
    && 0 <= DateToJulian(x.schedule.date) < 0x1_0000
    && 0 <= x.schedule.time.hour < 24 && 0 <= x.schedule.time.minute < 60
  }

  /** The three code units a selection is stored as. */
  function Stored(x: SelectedSchedule): (t: seq<CodeUnit>)
    ensures |t| == 3
  {
    [ToUint16(UidFingerprint(x.uid)), ToUint16(Finite(DateToJulian(x.schedule.date))),
     ToUint16(Finite(x.schedule.time.hour * 60 + x.schedule.time.minute))]
  }

  /** The payload regroups into the stored triples of the selections, in order. */
  lemma PayloadRows(schedules: seq<SelectedSchedule>)
    ensures |Triples(Payload(schedules))| == |schedules|
    ensures forall i :: 0 <= i < |schedules| ==> Triples(Payload(schedules))[i] == Stored(schedules[i])
  {
    PayloadLayout(schedules);
    var rows := Triples(Payload(schedules));
    forall i | 0 <= i < |schedules| ensures rows[i] == Stored(schedules[i]) {
      assert rows[i][0] == Payload(schedules)[3 * i + 0];
      assert rows[i][1] == Payload(schedules)[3 * i + 1];
      assert rows[i][2] == Payload(schedules)[3 * i + 2];
    }
  }

  /** The time of day survives as minutes since midnight. */
  lemma MinutesOfDayRoundTrip(time: TimeInfo)
    requires 0 <= time.hour < 24 && 0 <= time.minute < 60
    ensures 0 <= time.hour * 60 + time.minute < 1440
    ensures (time.hour * 60 + time.minute) / 60 == time.hour
    ensures (time.hour * 60 + time.minute) % 60 == time.minute
  {
  }

  /** A shareable selection's stored short uid resolves back to its uid. */
  lemma StoredUidResolves(x: SelectedSchedule, uids: seq<string>)
    requires |x.uid| >= 3 && IsShortUidText(x.uid[..3])
    requires FirstWithPrefix(uids, x.uid[..3]) == Some(x.uid)
    ensures Resolve(Stored(x), uids) == Some(x.uid)
  {
    ShortUidRoundTrip(x.uid[..3]);
    assert UidHead(x.uid) == x.uid[..3];
    assert Stored(x)[0] == ToUint16(UidFingerprint(x.uid[..3]));
  }

  /** One shareable selection comes back from its three code units. */
  lemma RowRoundTrip(x: SelectedSchedule, uids: seq<string>)
    requires Shareable(x, uids)
    ensures Resolve(Stored(x), uids) == Some(x.uid)
    ensures Rebuild(x.uid, Stored(x)) == x
  {
    StoredUidResolves(x, uids);
    StoredScheduleRebuilds(x);
  }

  /** The stored day offset and minute of the day give back the schedule. */
  lemma StoredScheduleRebuilds(x: SelectedSchedule)
    requires ValidDate(x.schedule.date) && 0 <= DateToJulian(x.schedule.date) < 0x1_0000
    requires 0 <= x.schedule.time.hour < 24 && 0 <= x.schedule.time.minute < 60
    ensures Rebuild(x.uid, Stored(x)) == x
  {
    StoredDay(x);
    StoredMinute(x);
    RebuildOf(x, Stored(x));
  }

  lemma StoredDay(x: SelectedSchedule)
    requires ValidDate(x.schedule.date) && 0 <= DateToJulian(x.schedule.date) < 0x1_0000
    ensures JulianToDate(Stored(x)[1]) == x.schedule.date
  {
    var date := x.schedule.date;
    NonNegativeOffsetYear(date);
    JulianRoundTrip(date);
    ToUint16Small(DateToJulian(date));
  }

  lemma StoredMinute(x: SelectedSchedule)
    requires 0 <= x.schedule.time.hour < 24 && 0 <= x.schedule.time.minute < 60
    ensures Stored(x)[2] / 60 == x.schedule.time.hour && Stored(x)[2] % 60 == x.schedule.time.minute
  {
    MinutesOfDayRoundTrip(x.schedule.time);
    ToUint16Small(x.schedule.time.hour * 60 + x.schedule.time.minute);
  }

  /** Rebuilding from code units that hold the day offset and the minute of the day. */
  lemma RebuildOf(x: SelectedSchedule, t: seq<CodeUnit>)
    requires |t| == 3 && JulianToDate(t[1]) == x.schedule.date
    requires t[2] / 60 == x.schedule.time.hour && t[2] % 60 == x.schedule.time.minute
    ensures Rebuild(x.uid, t) == x
  {
  }

  /**
   * decompress(compress(xs)) == xs for a non-empty list of selections that
   * each use the first catalog uid with their three-character prefix, fall
   * in the 65536 days from 1 January 2024, and carry a valid time.
   */
  lemma ShareRoundTrip(schedules: seq<SelectedSchedule>, uids: seq<string>, lz: Lz)
    requires Invertible(lz)
    requires |schedules| > 0
    requires forall i :: 0 <= i < |schedules| ==> Shareable(schedules[i], uids)
    ensures DecompressSchedules(CompressSchedules(schedules, lz), uids, lz) == Success(schedules)
  {
    var binary := Payload(schedules);
    assert lz.decompress(CompressSchedules(schedules, lz)) == Some(binary);
    PayloadRows(schedules);
    var rows := Triples(binary);
    forall i | 0 <= i < |schedules|
      ensures Resolve(rows[i], uids) == Some(schedules[i].uid)
      ensures Rebuild(schedules[i].uid, rows[i]) == schedules[i]
    {
      RowRoundTrip(schedules[i], uids);
    }
    var r := DecodeAll(rows, uids);
    assert r.Success?;
    assert r.value == schedules;
  }

  /**
   * A date before 1 January 2024 is stored modulo 65536, so it comes back
   * 65536 days later than it went in.
   */
  lemma EarlyDatesWrapAround(x: SelectedSchedule, uids: seq<string>, lz: Lz)
    requires Invertible(lz)
    requires ValidDate(x.schedule.date) && -0x1_0000 <= DateToJulian(x.schedule.date) < 0
    requires FirstWithPrefix(uids, ShortUid(ToUint16(UidFingerprint(x.uid)))).Some?
    ensures DecompressSchedules(CompressSchedules([x], lz), uids, lz).Success?
    ensures DayNumber(DecompressSchedules(CompressSchedules([x], lz), uids, lz).value[0].schedule.date)
         == DateToJulian(x.schedule.date) + 0x1_0000
  {
    assert Resolve(Stored(x), uids).Some?;
    DecompressOne(x, uids, lz);
    ToUint16Negative(DateToJulian(x.schedule.date));
  }

  /** A single selection whose short uid resolves decodes to the rebuild of its stored triple. */
  lemma DecompressOne(x: SelectedSchedule, uids: seq<string>, lz: Lz)
    requires Invertible(lz)
    requires Resolve(Stored(x), uids).Some?
    ensures var out := DecompressSchedules(CompressSchedules([x], lz), uids, lz);
      out.Success? && |out.value| == 1 && out.value[0] == Rebuild(Resolve(Stored(x), uids).value, Stored(x))
  {
    var binary := Payload([x]);
    assert lz.decompress(CompressSchedules([x], lz)) == Some(binary);
    PayloadRows([x]);
    assert Triples(binary)[0] == Stored(x);
  }

  lemma ToUint16Negative(v: int)
    requires -0x1_0000 <= v < 0
    ensures ToUint16(Finite(v)) == v + 0x1_0000
  {
  }

  // ---------------------------------------------------------------------
  // generateShareUrl
  // ---------------------------------------------------------------------

  /** The value of the first query pair named name. */
  function GetParam(query: seq<(string, string)>, name: string): Option<string> {
    if |query| == 0 then None
    else if query[0].0 == name then Some(query[0].1)
    else GetParam(query[1..], name)
  }

  /** The pairs of query not named name, in order. */
  function WithoutName(query: seq<(string, string)>, name: string): (r: seq<(string, string)>)
    ensures forall k :: 0 <= k < |r| ==> r[k].0 != name
  {
    if |query| == 0 then []
    else if query[0].0 == name then WithoutName(query[1..], name)
    else [query[0]] + WithoutName(query[1..], name)
  }

  /**
   * URLSearchParams.set (WHATWG URL Standard): the first pair named name
   * takes the value and later pairs of that name go; with no such pair,
   * one is appended.
   */
  function SetParam(query: seq<(string, string)>, name: string, value: string): seq<(string, string)> {
    if |query| == 0 then [(name, value)]
    else if query[0].0 == name then [(name, value)] + WithoutName(query[1..], name)
    else [query[0]] + SetParam(query[1..], name, value)
  }

  /** After set, the parameter reads back the value and occurs once. */
  lemma {:induction false} SetParamGet(query: seq<(string, string)>, name: string, value: string)
    ensures GetParam(SetParam(query, name, value), name) == Some(value)
    ensures |WithoutName(SetParam(query, name, value), name)| + 1 == |SetParam(query, name, value)|
  {
    if |query| > 0 && query[0].0 != name {
      SetParamGet(query[1..], name, value);
    } else if |query| > 0 {
      WithoutNameIdempotent(query[1..], name);
    }
  }

  lemma {:induction false} WithoutNameIdempotent(query: seq<(string, string)>, name: string)
    ensures WithoutName(WithoutName(query, name), name) == WithoutName(query, name)
  {
    if |query| > 0 {
      WithoutNameIdempotent(query[1..], name);
      var rest := WithoutName(query[1..], name);
      if query[0].0 != name {
        var w := [query[0]] + rest;
        assert w[0] == query[0] && w[1..] == rest;
        assert WithoutName(w, name) == [query[0]] + WithoutName(rest, name);
      }
    }
  }

  /** set leaves every pair of another name where it was. */
  lemma {:induction false} SetParamKeepsOthers(query: seq<(string, string)>, name: string, value: string, other: string)
    requires other != name
    ensures WithoutName(WithoutName(SetParam(query, name, value), name), other)
         == WithoutName(WithoutName(query, name), other)
  {
    if |query| == 0 {
    } else if query[0].0 == name {
      var r := [(name, value)] + WithoutName(query[1..], name);
      assert r[1..] == WithoutName(query[1..], name);
      WithoutNameIdempotent(query[1..], name);
    } else {
      var r := [query[0]] + SetParam(query[1..], name, value);
      assert r[1..] == SetParam(query[1..], name, value);
      SetParamKeepsOthers(query[1..], name, value, other);
      var w := WithoutName(r, name);
      assert w == [query[0]] + WithoutName(SetParam(query[1..], name, value), name);
      assert w[1..] == WithoutName(SetParam(query[1..], name, value), name);
      var v := [query[0]] + WithoutName(query[1..], name);
      assert WithoutName(query, name) == v && v[1..] == WithoutName(query[1..], name);
    }
  }

  /** The URL object generateShareUrl is handed; only its query is modelled. */
  class Url {
    var query: seq<(string, string)>

    constructor (query: seq<(string, string)>)
      ensures this.query == query
    {
      this.query := query;
    }

    /** url.searchParams.set(name, value) */
    method SetSearchParam(name: string, value: string)
      modifies this
      ensures query == SetParam(old(query), name, value)
    {
      query := SetParam(query, name, value);
    }
  }

  /** generateShareUrl: stores the compressed token as the `schedules` parameter. */
  method GenerateShareUrl(url: Url, schedules: seq<SelectedSchedule>, lz: Lz)
    modifies url
    ensures url.query == SetParam(old(url.query), "schedules", CompressSchedules(schedules, lz))
  {
    var compressed := CompressSchedules(schedules, lz);
    url.SetSearchParam("schedules", compressed);
  }

  /** Reading the parameter back from the shared URL and decompressing it gives the selection. */
  lemma ShareUrlRoundTrip(query: seq<(string, string)>, schedules: seq<SelectedSchedule>, uids: seq<string>, lz: Lz)
    requires Invertible(lz)
    requires |schedules| > 0
    requires forall i :: 0 <= i < |schedules| ==> Shareable(schedules[i], uids)
    ensures GetParam(SetParam(query, "schedules", CompressSchedules(schedules, lz)), "schedules").Some?
    ensures DecompressSchedules(
              GetParam(SetParam(query, "schedules", CompressSchedules(schedules, lz)), "schedules").value,
              uids, lz) == Success(schedules)
  {
    SetParamGet(query, "schedules", CompressSchedules(schedules, lz));
    ShareRoundTrip(schedules, uids, lz);
  }
}
