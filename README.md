# Sanrio Virtual Festival timetable importer — a verified model of its core

The importer is a small web application plus a few offline scripts. Visitors
of the Sanrio Virtual Festival 2025 use it to pick performances (an event uid
with a date and a time) from a timetable. The picks can then be shared as a
compressed URL token or exported as an iCalendar document. This project
models the logic behind those features in Dafny and proves what it does:

- **Share codec** (`ScheduleShare`): the day offset from 1 January 2024, with
  JavaScript's two-digit-year rule. Also the 16-bit code-unit packing and its
  three-unit unpacking loop, the three-character base-36 short uid resolved
  by prefix lookup, and minutes since midnight. The LZ compressor is an
  abstract pair of functions. The URL update is a small class whose query
  list the method reassigns.
- **iCalendar export** (`CalendarExport`): the existence pre-check with early
  return (400 / 404 / 500 responses), and the JST→UTC minute arithmetic. It
  also covers the `yyyyMMdd'T'HHmmss'Z'` stamps (RFC 5545 section 3.3.5,
  UTC form), the deterministic UID, and the escaping of backslash, ";",
  "," and newline (RFC 5545 section 3.3.11). Finally, the REQUEST/CANCEL document layout with its
  CONFIRMED/CANCELLED status (RFC 5546 section 3.2).
- **Event keys** (`Types`): `createEventKey` with its read-back, the
  `eventKeySchema` regular expression and range check, and `parseEventKey`.
- **Selection state** (`Selection`, `EventStore`, `IndexPage`): toggle, bulk
  toggle and remove, as pure functions. Each of the two front-end owners of
  the selection (the events hook and the main page) is a class whose fields
  those handlers reassign. The page adds the two-step navigation and the
  "Event not found" check of "add to calendar".
- **Views**: the floor/today and Android filters (`Filtering`), and sorting
  by earliest schedule (`EventSorting`). Also the uid grouping and in-group
  sort of the selection panel (`SelectedSchedulesView`), the bulk-select
  button (`BulkSelect`), the wizard stepper (`StepperState`), and the end of
  a slot (`EndTime`).
- **Catalog scripts** (`ConvertComplete`, `ConvertSummer`, `UpdatePaths`): the
  title-grouping loops of the two conversion scripts, and the in-place path
  update of the Python script.

Shared modules: `Civil` (proleptic Gregorian day and minute arithmetic,
and JavaScript's `MakeDay`), `Text` (digits, padding, joining, splitting,
ordering), `Seqs` (filter, sum, insertion sort), `Grouping` (the "Map keyed
by first appearance" specification) and `Wrappers` (`Option`, `Result`).

Behaviour of the code that the model keeps as written:

- The iCalendar description always ends with the detail-page link. For an
  event without a path, the text after the host is "undefined".
- Removing a schedule empties the whole selection when its key is
  present. The filter predicate tests the removed key, not the element.
- `parseEventKey` throws for every string.
- The summer script's `parseDateString` takes the month from characters 1–2
  (or 2 alone). As a result, "0919" gives month "91".

## Model

| member | source | states |
|---|---|---|
| ScheduleShare.DateToJulian | app/composables/useScheduleShare.ts:26-29 | `dateToJulian`: the whole days from 2024-01-01 to the date, as `Date.UTC` counts them (years 0..99 read as 1900..1999); DateToJulianOfValid, JulianRoundTrip and TwoDigitYearsShift state what the offset is |
| ScheduleShare.JulianToDate | app/composables/useScheduleShare.ts:31-39 | the decoded date is a real Gregorian date whose day number from 2024-01-01 is the given offset |
| ScheduleShare.DateToJulianOfBase | app/composables/useScheduleShare.ts:4-5 | 1 January 2024 is day 0 |
| ScheduleShare.DateToJulianOfValid | app/composables/useScheduleShare.ts:26-29 | for a valid date from year 100 on, the offset is the day count from 2024-01-01 |
| ScheduleShare.JulianRoundTrip | app/composables/useScheduleShare.ts:26-39 | julianToDate(dateToJulian(d)) == d for every valid date from year 100 on |
| ScheduleShare.DateToJulianRoundTrip | app/composables/useScheduleShare.ts:26-39 | dateToJulian(julianToDate(n)) == n for every offset from year 100 on |
| ScheduleShare.DateToJulianNextDay | app/composables/useScheduleShare.ts:26-29 | consecutive calendar days get consecutive offsets, across month and year ends |
| ScheduleShare.TwoDigitYearsShift | app/composables/useScheduleShare.ts:27 | Date.UTC reads years 0..99 as 1900..1999, so those dates come back shifted by 1900 years |
| ScheduleShare.DateToJulianInMonth | app/composables/useScheduleShare.ts:27-28 | the offset is year start plus month start plus day minus one, also for out-of-range days |
| ScheduleShare.NonNegativeOffsetYear | app/composables/useScheduleShare.ts:26-29 | a non-negative offset only arises from a date in 2024 or later |
| ScheduleShare.EncodeBinaryData | app/composables/useScheduleShare.ts:41-44 | `encodeBinaryData`: the flattened rows, each number stored as one 16-bit code unit; EncodeBinaryDataLayout gives each unit and BinaryRoundTrip the inverse |
| ScheduleShare.EncodeBinaryDataLayout | app/composables/useScheduleShare.ts:41-44 | one code unit per number, in row-major order, each stored modulo 65536 |
| ScheduleShare.Triples | app/composables/useScheduleShare.ts:51-53 | floor(len/3) triples, triple i being units 3i..3i+2; trailing units are dropped |
| ScheduleShare.DecodeBinaryData | app/composables/useScheduleShare.ts:46-54 | the push loop yields exactly those triples |
| ScheduleShare.BinaryRoundTrip | app/composables/useScheduleShare.ts:41-54 | unpacking packed rows of three numbers in 0..65535 gives the rows back |
| ScheduleShare.TrimStart | app/composables/useScheduleShare.ts:65 | parseInt's leading-whitespace skip never lengthens the text |
| ScheduleShare.Base36DigitValue | app/composables/useScheduleShare.ts:65 | a base-36 digit has a value below 36 |
| ScheduleShare.Base36Char | app/composables/useScheduleShare.ts:87 | toString(36) writes each digit value as a lowercase digit reading back to that value |
| ScheduleShare.Base36PrefixLength | app/composables/useScheduleShare.ts:65 | parseInt reads only a run of base-36 digits |
| ScheduleShare.Base36ValueBound | app/composables/useScheduleShare.ts:65 | three base-36 digits are below 46656, two below 1296, one below 36 |
| ScheduleShare.ParseIntRadix36 | app/composables/useScheduleShare.ts:65 | `Number.parseInt(s, 36)`: leading white space skipped, one optional sign, then the longest base-36 digit run, NaN when there is none; FingerprintOfShortUid and ShortUidRoundTrip state its value on three lowercase digits |
| ScheduleShare.UidFingerprint | app/composables/useScheduleShare.ts:65 | the stored short uid, when a number, lies in -46655..46655 |
| ScheduleShare.ToBase36 | app/composables/useScheduleShare.ts:87 | toString(36) always writes at least one digit |
| ScheduleShare.ShortUid | app/composables/useScheduleShare.ts:87 | `uidNum.toString(36).padStart(3, "0")`; ShortUidRoundTrip shows it recovers three lowercase base-36 characters from their stored number |
| ScheduleShare.ShortUidRoundTrip | app/composables/useScheduleShare.ts:65-87 | three lowercase base-36 characters survive parseInt, the 16-bit store, toString(36) and padStart(3, "0") |
| ScheduleShare.WithPrefix | app/composables/useScheduleShare.ts:88 | the filter keeps exactly the catalog uids starting with the short uid |
| ScheduleShare.FirstWithPrefixIsFirst | app/composables/useScheduleShare.ts:88-99 | none exactly when no uid has the prefix, otherwise the earliest such uid in catalog order |
| ScheduleShare.PayloadLayout | app/composables/useScheduleShare.ts:61-71 | per selection and in order: the short uid, the day offset and hour*60+minute, each modulo 65536 |
| ScheduleShare.Stored | app/composables/useScheduleShare.ts:61-69 | each selection is stored as three code units |
| ScheduleShare.PayloadRows | app/composables/useScheduleShare.ts:61-85 | unpacking the payload gives each selection's stored triple back, in order |
| ScheduleShare.DecodeAll | app/composables/useScheduleShare.ts:86-108 | success exactly when every triple resolves, then one decoded selection per triple, in order |
| ScheduleShare.DecodeAllFailure | app/composables/useScheduleShare.ts:87-92 | a failure names the short uid of the first triple that resolves to no catalog uid |
| ScheduleShare.DecompressSchedules | app/composables/useScheduleShare.ts:75-109 | `decompressSchedules`: the invalid-data error when decompression gives null or "", otherwise each triple decoded in order or the error of the first triple that does not resolve; DecompressInvalidIff, DecodeAllFailure and ShareRoundTrip state these outcomes |
| ScheduleShare.DecompressInvalidIff | app/composables/useScheduleShare.ts:82-83 | the invalid-data error arises exactly when the decompressor yields null or "" |
| ScheduleShare.EmptySelectionIsInvalid | app/composables/useScheduleShare.ts:56-83 | an empty selection compresses to a token that decompression rejects as invalid |
| ScheduleShare.MinutesOfDayRoundTrip | app/composables/useScheduleShare.ts:67-104 | hour*60+minute is below 1440 and floor-division and remainder by 60 give hour and minute back |
| ScheduleShare.StoredUidResolves | app/composables/useScheduleShare.ts:65-99 | a uid that is the first catalog uid with its three-character prefix is recovered |
| ScheduleShare.RowRoundTrip | app/composables/useScheduleShare.ts:61-107 | a shareable selection is rebuilt exactly from its stored triple |
| ScheduleShare.CompressSchedules | app/composables/useScheduleShare.ts:56-73 | `compressSchedules`: the compressed payload of one (short uid, day offset, minute of day) triple per selection; PayloadLayout gives the payload and ShareRoundTrip shows decompression inverts it |
| ScheduleShare.ShareRoundTrip | app/composables/useScheduleShare.ts:56-109 | decompress(compress(xs)) == xs for non-empty shareable selections and an invertible compressor |
| ScheduleShare.EarlyDatesWrapAround | app/composables/useScheduleShare.ts:42-97 | a date before 2024 comes back 65536 days later, because the offset is stored as an unsigned 16-bit value |
| ScheduleShare.WithoutName | app/composables/useScheduleShare.ts:119 | no pair left has the removed name |
| ScheduleShare.SetParamGet | app/composables/useScheduleShare.ts:119 | after set, the parameter reads back the value and occurs exactly once |
| ScheduleShare.WithoutNameIdempotent | app/composables/useScheduleShare.ts:119 | removing a name twice is removing it once |
| ScheduleShare.SetParamKeepsOthers | app/composables/useScheduleShare.ts:119 | setting one parameter leaves the other parameters as they were |
| ScheduleShare.Url.constructor | app/composables/useScheduleShare.ts:115 | a URL starts with the given query list |
| ScheduleShare.Url.SetSearchParam | app/composables/useScheduleShare.ts:119 | the query list becomes the old one with the parameter set |
| ScheduleShare.GenerateShareUrl | app/composables/useScheduleShare.ts:111-121 | the URL's "schedules" parameter is set to the compressed selection |
| ScheduleShare.ShareUrlRoundTrip | app/composables/useScheduleShare.ts:75-121 | reading "schedules" back from the shared URL and decompressing gives the selection back |
| CalendarExport.FileName | server/controller.ts:16-19 | the file name of the create or the cancel document; FileNamesDistinct shows the two differ |
| CalendarExport.FileNamesDistinct | server/controller.ts:16-19 | create and cancel documents are offered under different file names |
| CalendarExport.Find | server/controller.ts:94-97 | a found event carries the uid and is in the catalog; none exactly when no event has it |
| CalendarExport.FirstMissingFrom | server/controller.ts:212-223 | the index of the first pick whose uid is unknown, or none when all are known |
| CalendarExport.FirstMissingIs | server/controller.ts:212-223 | the pre-check stops at the first unknown pick |
| CalendarExport.MakeEntry | server/controller.ts:99-109 | a start exactly when the JST reading parses (a real date and time in years 1..9999); then UTC start is JST minus 540 minutes and end is start plus the slot |
| CalendarExport.Entries | server/controller.ts:93-133 | one entry per pick in order, or the not-found message of the first unknown uid |
| CalendarExport.CollectEntries | server/controller.ts:93-133 | the push loop builds exactly those entries |
| CalendarExport.StampSlices | server/controller.ts:142-157 | where each fixed-width field sits in a stamp |
| CalendarExport.BasicUtc | server/controller.ts:142-157 | the "yyyyMMdd'T'HHmmss'Z'" text of a reading; BasicUtcLayout gives its layout and BasicUtcInjective shows different readings give different texts |
| CalendarExport.BasicUtcLayout | server/controller.ts:142-157 | a stamp is 16 characters: four-digit year, then two digits each for month, day, hour, minute and second, with T and Z; each reads back as its field |
| CalendarExport.BasicUtcInjective | server/controller.ts:142-157 | different instants give different stamps |
| CalendarExport.FormatUtc | server/controller.ts:119-157 | a missing time, or a UTC year outside 1..9999 (year 0 included), fails with "Invalid time value"; otherwise the stamp of the instant with seconds 00 |
| CalendarExport.FormatUtcInjective | server/controller.ts:142-157 | equal formatted stamps come from equal minute offsets |
| CalendarExport.FormatUtcSeconds | server/controller.ts:144-152 | the seconds of DTSTART and DTEND are always 00 |
| CalendarExport.EventUid | server/controller.ts:52-65 | `generateEventUID`: uid, "-", start stamp, "_", end stamp, then the domain; EventUidInjective shows it determines all three |
| CalendarExport.Now | server/controller.ts:162 | DTSTAMP: `toISOString()` with '-' and ':' removed and the milliseconds cut off, then Z; for a reading before year 10000 it is BasicUtc of the clock's UTC reading; from year 10000 on it starts with the "+" of the extended year |
| CalendarExport.IsoYear | server/controller.ts:162 | the year of `toISOString()`: four digits up to 9999, from 10000 on a "+" and six digits |
| CalendarExport.EventUidInjective | server/controller.ts:52-65 | with fixed-width stamps the UID determines the catalog uid, the start and the end |
| CalendarExport.ReplaceCharAppend | server/controller.ts:174-178 | a global replace distributes over concatenation |
| CalendarExport.ReplaceCharAbsent | server/controller.ts:174-178 | replacing a character that does not occur changes nothing |
| CalendarExport.Escape | server/controller.ts:174-178 | the four chained global replaces, backslash first; EscapeIsEscapeEach, UnescapeEscape and EscapeIsEscapedText state what the result is |
| CalendarExport.Description | server/controller.ts:167-173 | the description text: title, floor and location, platforms, catalog description, then the detail-page link, which is always appended |
| CalendarExport.EscapeSingle | server/controller.ts:174-178 | on one character the chained replacements give its escape sequence |
| CalendarExport.EscapeAppend | server/controller.ts:174-178 | escaping distributes over concatenation |
| CalendarExport.EscapeIsEscapeEach | server/controller.ts:174-178 | because backslashes go first, the chain escapes each character independently |
| CalendarExport.UnescapeEscapeEach | server/controller.ts:174-178 | reading the escapes back recovers the text |
| CalendarExport.UnescapeEscape | server/controller.ts:167-178 | unescaping the escaped description recovers the description |
| CalendarExport.EscapeEachIsEscapedText | server/controller.ts:174-178 | escaped output is made of characters other than backslash, ";", "," and newline, and the four escape pairs `\\` `\;` `\,` `\n` |
| CalendarExport.EscapedTextHasNoNewline | server/controller.ts:174-178 | such text has no raw newline |
| CalendarExport.EscapeIsEscapedText | server/controller.ts:174-178 | the escaped description is made of unescaped characters other than backslash, ";", "," and newline, and the four escape pairs, and holds no raw newline |
| CalendarExport.DescriptionEndsWithLink | server/controller.ts:167-173 | the description always ends with the detail-page link; without a path the link ends in "undefined" |
| CalendarExport.Summary | server/controller.ts:185 | "[サンリオVfes] ", the title, and the platforms joined by ", " in brackets; not escaped |
| CalendarExport.VEventLines | server/controller.ts:180-191 | a VEVENT is ten lines |
| CalendarExport.EventLines | server/controller.ts:141-191 | an entry's VEVENT is written exactly when its start and end format, and otherwise raises "Invalid time value" |
| CalendarExport.Sequence | server/controller.ts:141-192 | all values when every result succeeds, otherwise the error of the first failing result |
| CalendarExport.LinesOf | server/controller.ts:141-192 | the i-th entry's lines, reading the clock as the i-th reading |
| CalendarExport.Blocks | server/controller.ts:141-192 | the map succeeds exactly when every entry can be written |
| CalendarExport.BlocksValues | server/controller.ts:141-192 | block i is entry i's VEVENT: the blocks keep the input order |
| CalendarExport.BlocksUniform | server/controller.ts:180-191 | every block is ten lines |
| CalendarExport.JoinOfJoins | server/controller.ts:191-194 | joining blocks that were joined with "\n" is joining all their lines |
| CalendarExport.DocumentIsLines | server/controller.ts:135-194 | the document is its lines joined with "\n" |
| CalendarExport.Document | server/controller.ts:135-193 | the header lines, the blocks in order and END:VCALENDAR, joined by "\n"; DocumentIsLines and DocumentLayout state its lines |
| CalendarExport.DocumentLayout | server/controller.ts:135-193 | five header lines, ten lines per pick, and END:VCALENDAR last |
| CalendarExport.DocumentLineAt | server/controller.ts:141-192 | line k of block i is document line 5+10i+k |
| CalendarExport.HandleIcs | server/controller.ts:206-253 | the handler body with its pre-check loop and early return gives the specified response |
| CalendarExport.GenerateIcs | server/controller.ts:206-253 | generateICS answers with the create-mode response |
| CalendarExport.GenerateCancelIcs | server/controller.ts:255-304 | generateCancelICS answers with the cancel-mode response |
| CalendarExport.EmptyRequestIff | server/controller.ts:31-38 | the response is 400 exactly when the selection is empty |
| CalendarExport.MissingUidIff | server/controller.ts:211-223 | for a non-empty selection, 404 exactly when some uid is unknown, naming the first unknown uid |
| CalendarExport.IcsResponse | server/controller.ts:206-253 | 400 for an empty request, 404 naming the first unknown uid, 500 when a time cannot be written, otherwise the document; EmptyRequestIff, MissingUidIff and DocumentResponse state each case |
| CalendarExport.DocumentResponse | server/controller.ts:206-253 | a document exactly when non-empty, all uids known and every start and end formattable (UTC years 1..9999); then header, one VEVENT per pick in order, footer, under the mode's file name |
| CalendarExport.CancelDiffersOnlyInStatus | server/controller.ts:180-191 | create and cancel VEVENTs differ only in STATUS; the UIDs agree |
| CalendarExport.EventLinesModes | server/controller.ts:141-191 | whether an event can be written does not depend on the mode |
| CalendarExport.HeaderDiffersOnlyInMethod | server/controller.ts:135-140 | the header differs between the modes only in METHOD:CANCEL / METHOD:REQUEST |
| CalendarExport.UtcTimes | server/controller.ts:99-109 | UTC start is JST minus nine hours and end is start plus the slot, carrying across day, month and year |
| CalendarExport.ExampleFebruaryNinth | server/controller.ts:99-157 | 2025-02-09 19:30 JST with a 30-minute slot gives 20250209T103000Z and 20250209T110000Z |
| CalendarExport.ExampleNewYear | server/controller.ts:99-157 | 2025-01-01 05:00 JST starts at 2024-12-31 20:00 UTC: the nine hours carry back across the year |
| CalendarExport.YearZeroUnparseable | server/controller.ts:99-103 | a JST reading in year 0 does not parse, because the four-digit year field rejects 0 |
| CalendarExport.YearOneMorningUnwritable | server/controller.ts:99-157 | before 09:00 JST on 1 January of year 1 the reading parses but its UTC start lies in year 0, so format throws "Invalid time value" |
| CalendarExport.EarlyNewYearStart | server/controller.ts:99-105 | before 09:00 JST on 1 January the UTC start is on 31 December of the previous year, nine hours back |
| Types.CreateEventKey | app/components/types.ts:81-91 | `createEventKey`: uid_year-month-day_hour-minute; CreateEventKeyLayout, ReadEventKeyInverse and KeyOfInjective state its layout and that it determines the selection |
| Types.CreateEventKeyLayout | app/components/types.ts:81-91 | the key is uid_year-month-day_hour-minute in decimal |
| Types.DigitPrefixLength | app/components/types.ts:34 | the longest run of leading decimal digits |
| Types.DigitPrefixOfDigits | app/components/types.ts:34 | a digit run followed by a non-digit is read whole |
| Types.ReadNatOfDigits | app/components/types.ts:90 | reading a non-empty digit run gives its value and the rest |
| Types.ReadIntOfIntToString | app/components/types.ts:90 | a decimal integer reads back as itself |
| Types.ReadDashJoinedInverse | app/components/types.ts:90 | the dash-joined numbers read back as the list |
| Types.DashJoinedHasNoUnderscore | app/components/types.ts:90 | the number fields of a key contain no "_" |
| Types.SplitLastOf | app/components/types.ts:90 | the last separator splits off a separator-free tail |
| Types.ReadEventKeyInverse | app/components/types.ts:81-91 | the uid, date and time are recovered from their key |
| Types.KeyOfInjective | app/components/types.ts:81-91 | two selections have the same key exactly when they are equal |
| Types.DigitSuffixLength | app/components/types.ts:34 | the longest run of trailing decimal digits |
| Types.DigitSuffixOfDigits | app/components/types.ts:34 | a digit run after a non-digit is the whole trailing run |
| Types.SplitDigitsAfterOf | app/components/types.ts:34 | a trailing digit group splits off at its separator |
| Types.MatchEventKey | app/components/types.ts:34-41 | the regex match with greedy `.+` title and four digit groups; MatchEventKeySound and MatchEventKeyComplete state when it matches, both directions |
| Types.MatchEventKeySound | app/components/types.ts:34-41 | a match decomposes the string into a non-empty single-line title and four digit groups |
| Types.MatchEventKeyComplete | app/components/types.ts:34-41 | every such decomposition is matched, even when the title holds "-" (greedy `.+`) |
| Types.EventKeyAccepted | app/components/types.ts:34-58 | the regex plus the refine's range checks; EventKeyAcceptedIff gives both directions |
| Types.EventKeyAcceptedIff | app/components/types.ts:34-58 | accepted exactly when the string is such a decomposition with month 1..12, day 1..31, hour 0..23 and minute 0..59 |
| Types.EventKeyTemplateIff | app/components/types.ts:34-58 | title-M/D-H:m is accepted exactly when the four numbers are in range |
| Types.ParseEventKey | app/components/types.ts:65-98 | every string is rejected with the uid-MM/DD-HH:mm message, since the schema expects an object |
| Selection.Keys | app/composables/useEvents.ts:71-77 | the key of each schedule, in order |
| Selection.WithoutKeys | app/composables/useEvents.ts:90-102 | keeps exactly the entries whose key is not among the given keys |
| Selection.WithoutKeysAppend | app/composables/useEvents.ts:90-102 | the filter keeps the order of the entries it keeps |
| Selection.WithoutKeysNone | app/composables/useEvents.ts:90-102 | removing absent keys changes nothing |
| Selection.WithoutKeysHasKey | app/composables/useEvents.ts:90-102 | a key is present afterwards exactly when it was present and not removed |
| Selection.WithoutKeysDistinct | app/composables/useEvents.ts:90-102 | removal keeps keys distinct |
| Selection.Toggle | app/composables/useEvents.ts:43-67 | `handleScheduleToggle`'s update: filter the key out when present, otherwise append; ToggleFlips, TogglePresentFilters, ToggleTwice and ToggleDistinct state its effect |
| Selection.ToggleFlips | app/composables/useEvents.ts:43-67 | toggling flips the presence of the schedule's key and of no other key |
| Selection.TogglePresentFilters | app/composables/useEvents.ts:58-65 | with the key present, toggle removes every entry with that key and keeps the rest in order |
| Selection.ToggleTwice | app/composables/useEvents.ts:43-67 | toggling twice from a list without the key restores the list |
| Selection.ToggleDistinct | app/composables/useEvents.ts:43-67 | toggle keeps keys distinct |
| Selection.AppendMissing | app/composables/useEvents.ts:104-126 | the previous list stays a prefix, every given key is present, and only given schedules are appended |
| Selection.AppendMissingDistinct | app/composables/useEvents.ts:104-126 | appending only missing keys keeps keys distinct |
| Selection.AppendMissingLoop | app/composables/useEvents.ts:104-126 | the push loop computes that append |
| Selection.BulkToggle | app/composables/useEvents.ts:79-102 | `handleBulkToggle`'s update: remove all given keys when all are selected, otherwise append the missing ones; BulkToggleRemoves, BulkToggleAppends and BulkToggleDistinct state its effect |
| Selection.BulkToggleRemoves | app/composables/useEvents.ts:79-102 | when every given key is selected, those keys are removed and every other entry kept |
| Selection.BulkToggleAppends | app/composables/useEvents.ts:79-126 | otherwise the previous list is a prefix, every given key is present, and only given schedules are added |
| Selection.BulkToggleDistinct | app/composables/useEvents.ts:70-127 | bulk toggle keeps keys distinct |
| Selection.Remove | app/composables/useEvents.ts:142-154 | `handleRemoveSchedule`'s filter, whose test uses the removed key; RemoveEffect and RemoveDistinct state its effect |
| Selection.RemoveEffect | app/composables/useEvents.ts:142-154 | the key is gone afterwards; when it was present the whole selection is cleared, otherwise nothing changes |
| Selection.RemoveDistinct | app/composables/useEvents.ts:142-154 | remove keeps keys distinct |
| EventStore.Store.constructor | app/composables/useEvents.ts:10-13 | the hook starts with no events and no selection |
| EventStore.Store.SetEvents | app/composables/useEvents.ts:15-41 | loading replaces the events and leaves the selection alone; afterwards the hook reports loading exactly when the loaded list is empty |
| EventStore.Store.IsLoading | app/composables/useEvents.ts:164 | holds exactly when the events list is empty |
| EventStore.Store.SetSelectedSchedules | app/composables/useEvents.ts:11-13 | the setter replaces the selection and leaves the events alone |
| EventStore.Store.HandleScheduleToggle | app/composables/useEvents.ts:43-67 | the selection becomes its toggle; distinct keys stay distinct |
| EventStore.Store.HandleBulkToggle | app/composables/useEvents.ts:70-127 | the selection becomes its bulk toggle; distinct keys stay distinct |
| EventStore.Store.HandleRemoveSchedule | app/composables/useEvents.ts:130-155 | the selection becomes its removal of the key; distinct keys stay distinct |
| IndexPage.SelectedEvents | app/routes/_index.tsx:180-197 | "Event not found" exactly when some selected uid is absent from the events; otherwise one request per selection, in order |
| IndexPage.RequestOf | app/routes/_index.tsx:180-197 | one calendar request per selection, each number field as its `toString()`; RequestFieldsReadBack shows each reads back |
| IndexPage.RequestFieldsReadBack | app/routes/_index.tsx:180-197 | each start field of a request reads back as its number |
| IndexPage.Page.constructor | app/routes/_index.tsx:35-47 | the page starts with no events, no selection and step 0 |
| IndexPage.Page.SetEvents | app/routes/_index.tsx:49-72 | loading replaces the events only |
| IndexPage.Page.HandleScheduleToggle | app/routes/_index.tsx:74-99 | the selection becomes its toggle; the step and the key distinctness are kept; selecting a new schedule enables Next |
| IndexPage.Page.HandleBulkToggle | app/routes/_index.tsx:101-161 | the selection becomes its bulk toggle; the step and the key distinctness are kept |
| IndexPage.Page.HandleRemoveSchedule | app/routes/_index.tsx:310-335 | the selection becomes its removal of the key; the step and the key distinctness are kept; removing a selected key disables Next |
| IndexPage.Page.IsNextDisabled | app/routes/_index.tsx:370 | holds exactly when the selection is empty |
| IndexPage.Page.HandleNextStep | app/routes/_index.tsx:337-341 | step 0 becomes 1 and step 1 stays; nothing else changes |
| IndexPage.Page.HandleBackStep | app/routes/_index.tsx:343-347 | step 1 becomes 0 and step 0 stays; nothing else changes |
| StepperState.Stepper.constructor | app/composables/useStepper.ts:4 | the stepper starts at step 0 |
| StepperState.Stepper.NextStep | app/composables/useStepper.ts:6-10 | 0 becomes 1 and 1 stays; the step stays in {0,1} |
| StepperState.Stepper.BackStep | app/composables/useStepper.ts:12-14 | the step becomes max(0, step-1), so it is 0 |
| StepperState.Stepper.SetStep | app/composables/useStepper.ts:16-20 | a step in 0..1 is assigned, any other value changes nothing |
| Filtering.FilteredEvents | app/hooks/useFilteredEvents.ts:12-48 | `getFilteredEvents`: the two filters, then the today-mode trim; FloorModeExact, TodayModeExact, AndroidOnly and FilteredEventsAppend state the result |
| Filtering.SelectEvents | app/hooks/useFilteredEvents.ts:20-32 | an event survives exactly when it matches the view and the platform filter |
| Filtering.ShapeAll | app/hooks/useFilteredEvents.ts:33-47 | each surviving event, shaped for the view, in its place |
| Filtering.FloorModeExact | app/hooks/useFilteredEvents.ts:30-32 | in floor mode the result is exactly the events on the selected floor passing the platform filter |
| Filtering.TodayModeExact | app/hooks/useFilteredEvents.ts:22-47 | in today mode an event is kept, trimmed, exactly when it has a schedule that day; every result has a non-empty schedule list, all on that day |
| Filtering.TrimNonEmpty | app/hooks/useFilteredEvents.ts:33-47 | trimming an event with a schedule that day leaves some schedule |
| Filtering.FloorModeUnchanged | app/hooks/useFilteredEvents.ts:33-47 | floor mode leaves schedules unchanged |
| Filtering.AndroidOnly | app/hooks/useFilteredEvents.ts:32 | with the switch on, every result runs on Android |
| Filtering.ShapeAllAppend | app/hooks/useFilteredEvents.ts:33-47 | the map keeps order |
| Filtering.FilteredEventsAppend | app/hooks/useFilteredEvents.ts:20-47 | the result keeps the input order of the surviving events |
| EventSorting.EarliestSchedule | app/hooks/useEventSorting.ts:15-22 | null exactly when the event has no schedules |
| EventSorting.FoldEarliest | app/hooks/useEventSorting.ts:17-21 | the `reduce` that replaces the current schedule only by a strictly earlier one; FoldEarliestFacts states its result |
| EventSorting.FoldEarliestFacts | app/hooks/useEventSorting.ts:17-21 | the reduce keeps the initial value or the first strictly earlier schedule of minimal time |
| EventSorting.EarliestIsFirstMinimum | app/hooks/useEventSorting.ts:15-22 | the earliest schedule has minimal time and is its first occurrence |
| EventSorting.PrecedesIsTotalPreorder | app/hooks/useEventSorting.ts:27-41 | the comparator is a total preorder |
| EventSorting.SortEventsByEarliestSchedule | app/hooks/useEventSorting.ts:25-42 | the result is a permutation of the input; SortedByEarliest and SortEventsStable state its order and stability |
| EventSorting.SortedByEarliest | app/hooks/useEventSorting.ts:31-40 | events without schedules come last; the others are in non-decreasing earliest start |
| EventSorting.TiedIsSameRank | app/hooks/useEventSorting.ts:27-41 | the comparator returns 0 both ways exactly when two events have the same earliest start, or both have no schedules |
| EventSorting.SortEventsStable | app/hooks/useEventSorting.ts:26-41 | the sort is stable: events with the same earliest start, and the events without schedules, keep their input order |
| EndTime.EndReading | utils/date.ts:11-20 | the end reading is valid, and the start plus the slot in minutes |
| EndTime.CalculateEndTime | utils/date.ts:11-25 | `calculateEndTime`: "MM/DD" and "HH:mm" of the start plus the slot; EndTimeLayout, EndTimeIgnoresYear and EndIsStartPlusSlot state its output |
| EndTime.EndTimeLayout | utils/date.ts:22-25 | "MM/DD" and "HH:mm", each field two digits reading back as month, day, hour and minute |
| EndTime.EndTimeIgnoresYear | utils/date.ts:22-25 | two outputs are equal exactly when month, day, hour and minute agree, whatever the years |
| EndTime.EndIsStartPlusSlot | utils/date.ts:11-20 | for a valid start from year 100 on, the end is the start plus the slot, carrying into hour, day, month and year |
| EndTime.ZeroSlotEndsAtStart | utils/date.ts:11-20 | a zero-length slot ends at the start |
| SelectedSchedulesView.SplitAtMarker | app/components/SelectedSchedules.tsx:18-26 | a digit field before a marker is fixed by the text |
| SelectedSchedulesView.PaddedField | app/components/SelectedSchedules.tsx:22-25 | padStart(2, "0") of a number below 100 is its two-digit form |
| SelectedSchedulesView.PaddedFieldsOrder | app/components/SelectedSchedules.tsx:84-92 | comparing two padded fields orders by the numbers, first field first |
| SelectedSchedulesView.DateTextSplit | app/components/SelectedSchedules.tsx:20 | the month and day texts are recovered from "M月D日" |
| SelectedSchedulesView.DisplayDateInjective | app/components/SelectedSchedules.tsx:20 | "M月D日" determines month and day |
| SelectedSchedulesView.FormatForDisplay | app/components/SelectedSchedules.tsx:18-26 | "M月D日" and the zero-padded "HH:mm"; FormatForDisplayFaithful shows equal displays exactly for equal month, day, hour and minute |
| SelectedSchedulesView.FormatForDisplayFaithful | app/components/SelectedSchedules.tsx:18-26 | two displays agree exactly when month, day, hour and minute agree |
| SelectedSchedulesView.FindEvent | app/components/SelectedSchedules.tsx:44 | a found event is from the list and carries the uid |
| SelectedSchedulesView.FindEventIsFirst | app/components/SelectedSchedules.tsx:44 | none exactly when no event has the uid, otherwise the first such event |
| SelectedSchedulesView.KeptKeysKnown | app/components/SelectedSchedules.tsx:44-45 | every grouped uid belongs to a known event |
| SelectedSchedulesView.GroupsInvStepAt | app/components/SelectedSchedules.tsx:46-52 | one loop step gives uid k's group the kept picks with uid k |
| SelectedSchedulesView.GroupsInvStep | app/components/SelectedSchedules.tsx:46-52 | one loop step keeps the map equal to the grouping of the picks seen |
| SelectedSchedulesView.GroupedSchedules | app/components/SelectedSchedules.tsx:40-69 | the groups: one per known uid in first-appearance order, each that uid's picks in order; GroupsHoldExactlyTheKnownPicks, GroupsDistinct, GroupSizesTotal and GroupsInFirstAppearanceOrder state this |
| SelectedSchedulesView.GroupSchedules | app/components/SelectedSchedules.tsx:40-69 | the loop yields the specified groups |
| SelectedSchedulesView.GroupsHoldExactlyTheKnownPicks | app/components/SelectedSchedules.tsx:41-55 | a pick is in a group exactly when its uid is known, and then in its own uid's group; unknown uids are dropped |
| SelectedSchedulesView.GroupsDistinct | app/components/SelectedSchedules.tsx:47-52 | no two groups share a uid |
| SelectedSchedulesView.GroupSizesTotal | app/components/SelectedSchedules.tsx:43-53 | the group sizes add up to the number of picks with a known uid |
| SelectedSchedulesView.GroupsInFirstAppearanceOrder | app/components/SelectedSchedules.tsx:47-69 | groups appear in order of first uid appearance |
| SelectedSchedulesView.ScheduleLeIsTotalPreorder | app/components/SelectedSchedules.tsx:84-92 | the comparator is a consistent total preorder |
| SelectedSchedulesView.CompareIsMonthDayTimeOrder | app/components/SelectedSchedules.tsx:84-92 | the comparator orders by (month, day, hour, minute) and ignores the year |
| SelectedSchedulesView.SortGroup | app/components/SelectedSchedules.tsx:84 | the sorted group is a permutation of the group; SortGroupOrdered and SortGroupStable state its order and stability |
| SelectedSchedulesView.SortGroupOrdered | app/components/SelectedSchedules.tsx:84-92 | the sorted group is in (month, day, hour, minute) order |
| SelectedSchedulesView.TiedIsSameSlot | app/components/SelectedSchedules.tsx:84-92 | with fields below 100 the comparator returns 0 both ways exactly when month, day, hour and minute agree |
| SelectedSchedulesView.SortGroupStable | app/components/SelectedSchedules.tsx:84-92 | the in-group sort is stable: picks at the same month, day, hour and minute keep their group order |
| BulkSelect.Tagged | app/components/BulkSelectButton.tsx:45-52 | each schedule of the event tagged with its uid, in order |
| BulkSelect.FlattenSameLengths | app/components/BulkSelectButton.tsx:39-52 | flattening rows of equal lengths gives equal lengths |
| BulkSelect.FlattenMember | app/components/BulkSelectButton.tsx:43-54 | an element of the flattening is an element of some row |
| BulkSelect.FlattenAppend | app/components/BulkSelectButton.tsx:43-54 | flatMap keeps order over concatenation |
| BulkSelect.BulkEventsAppend | app/components/BulkSelectButton.tsx:20-37 | the filter keeps order over concatenation |
| BulkSelect.TaggedRowsAppend | app/components/BulkSelectButton.tsx:43-54 | tagging keeps order over concatenation |
| BulkSelect.CountIsPayloadLength | app/components/BulkSelectButton.tsx:39-54 | the schedule count equals the payload length |
| BulkSelect.Payload | app/components/BulkSelectButton.tsx:20-54 | `allSchedules`: the filtered events' schedules, each tagged with its event's uid; PayloadMembers, PayloadAppend and PayloadOfOne state its contents and order |
| BulkSelect.AllSchedulesCount | app/components/BulkSelectButton.tsx:20-54 | `getAllSchedulesCount`: the number of schedules in view; CountIsPayloadLength shows it is the payload length |
| BulkSelect.PayloadMembers | app/components/BulkSelectButton.tsx:20-54 | the payload holds exactly the schedules of the events in view, each tagged with its own event's uid |
| BulkSelect.PayloadAppend | app/components/BulkSelectButton.tsx:43-54 | the payload keeps event order and, within an event, schedule order |
| BulkSelect.PayloadOfOne | app/components/BulkSelectButton.tsx:43-54 | an event in view contributes its tagged schedules, one out of view nothing |
| BulkSelect.IsAllSelected | app/components/BulkSelectButton.tsx:56 | `isAllSelected`: the selection's length equals the count; IsAllSelectedIsLengthTest and IsAllSelectedIgnoresContents show it compares lengths only |
| BulkSelect.IsAllSelectedIsLengthTest | app/components/BulkSelectButton.tsx:56 | "all selected" is the length comparison with the payload |
| BulkSelect.IsAllSelectedIgnoresContents | app/components/BulkSelectButton.tsx:56 | one selection of another event's schedule reads as "all selected" |
| ConvertComplete.ParseDateString | scripts/convert-complete-events.ts:17-23 | month and day text of "MMDD"; ParseDateStringFourChars and ParseDateStringExamples state its output |
| ConvertComplete.ParseDateStringFourChars | scripts/convert-complete-events.ts:17-23 | month "9" exactly when the text starts "09", otherwise the first two characters; day is characters 2..3 |
| ConvertComplete.ParseDateStringExamples | scripts/convert-complete-events.ts:17-23 | "0919", "0819" and "1003" give (9, 19), (08, 19) and (10, 03) |
| ConvertComplete.ConvertCompleteEvents | scripts/convert-complete-events.ts:58-119 | the loop over the rows yields the specified event list |
| ConvertComplete.SchedulesOf | scripts/convert-complete-events.ts:92-101 | one schedule per row, in order |
| ConvertComplete.StepKeeps | scripts/convert-complete-events.ts:92-111 | a row appends its schedule and keeps uid, floor, platform and title |
| ConvertComplete.ReplayKeeps | scripts/convert-complete-events.ts:92-101 | a title's rows append one schedule each, in input order, and change no identity field |
| ConvertComplete.ReplaySlot | scripts/convert-complete-events.ts:77-111 | the slot is the maximum of the start and every truthy duration |
| ConvertComplete.ReplayImage | scripts/convert-complete-events.ts:86-106 | a missing image is filled by the first truthy image among the rows |
| ConvertComplete.MergedFacts | scripts/convert-complete-events.ts:72-111 | one group's entry: uid of its title, floor "その他", the first row's platform or ["PC"], its schedules, slot max(30, durations), the first truthy image |
| ConvertComplete.FinalFilterKeepsAll | scripts/convert-complete-events.ts:115-119 | the final title filter removes nothing |
| ConvertComplete.Converted | scripts/convert-complete-events.ts:58-119 | the written events: one merged record per surviving title in first-appearance order; ConvertedRecords, ConvertedTitlesInOrder, ConvertedTitlesDistinct and ConvertedTitleIff state them |
| ConvertComplete.ConvertedRecords | scripts/convert-complete-events.ts:58-119 | each output entry is its title group's merged record, with schedule year "2025" |
| ConvertComplete.ConvertedTitlesInOrder | scripts/convert-complete-events.ts:70-89 | entries come in order of first title appearance |
| ConvertComplete.ConvertedTitlesDistinct | scripts/convert-complete-events.ts:70-89 | no two entries share a title |
| ConvertComplete.ConvertedTitleIff | scripts/convert-complete-events.ts:58-89 | an entry has a title exactly when a non-navigation row with that non-empty title exists |
| ConvertComplete.ScheduleOf | scripts/convert-complete-events.ts:95-101 | a row's schedule: ParseDateString's month and day, year "2025", and `time.split(":")`; ScheduleOfTime and ScheduleOfTimeNoColon state the time fields |
| ConvertComplete.ScheduleOfTime | scripts/convert-complete-events.ts:95-101 | "H:M" gives hour H and minute M |
| ConvertComplete.ScheduleOfTimeNoColon | scripts/convert-complete-events.ts:95-101 | a time without ":" gives the whole text as hour and no minute |
| ConvertSummer.ParseDateString | scripts/convert-summer-events.ts:19-26 | month text `substring(2, 3)` when the second character is "0", else `substring(1, 3)`; day `substring(2, 4)`; ParseDateStringFourChars and ParseDateStringSeptember state its output |
| ConvertSummer.FloorFromTitle | scripts/convert-summer-events.ts:13-16 | `getFloorFromTitle` always gives "その他"; ConvertedRecords states every record's floor |
| ConvertSummer.ParseDateStringFourChars | scripts/convert-summer-events.ts:19-26 | the month text ends with the day's first character |
| ConvertSummer.ParseDateStringSeptember | scripts/convert-summer-events.ts:19-26 | "0919" gives month "91" and "0819" month "81" |
| ConvertSummer.MatchAtExactly | scripts/convert-summer-events.ts:51 | a match at a position needs digits, ":" and digits there |
| ConvertSummer.SearchFromLeftmost | scripts/convert-summer-events.ts:51 | the search returns the leftmost match |
| ConvertSummer.MatchTime | scripts/convert-summer-events.ts:51 | the regex search for digits ":" digits; MatchTimeIff, SearchFromLeftmost and MatchAtGroups state when it matches and its groups |
| ConvertSummer.MatchTimeIff | scripts/convert-summer-events.ts:51 | a time matches exactly when it contains digit ":" digit; the groups are non-empty digit runs around ":" inside the time |
| ConvertSummer.MatchAtGroups | scripts/convert-summer-events.ts:51 | the groups are the whole digit runs left and right of ":" |
| ConvertSummer.MatchTimeOfHourMinute | scripts/convert-summer-events.ts:51-62 | "H:M" with digit runs H and M gives the groups H and M |
| ConvertSummer.SchedulesOf | scripts/convert-summer-events.ts:53-62 | one schedule per timed row, in order |
| ConvertSummer.Timed | scripts/convert-summer-events.ts:51-53 | keeps exactly the rows whose time matches |
| ConvertSummer.ConvertSummerEvents | scripts/convert-summer-events.ts:31-68 | the loop over the rows yields the specified event list |
| ConvertSummer.StepKeeps | scripts/convert-summer-events.ts:50-62 | a row appends a schedule only when its time matches, and keeps every other field |
| ConvertSummer.TimedSnoc | scripts/convert-summer-events.ts:51-53 | the timed rows grow by a row exactly when it matches |
| ConvertSummer.ReplayKeeps | scripts/convert-summer-events.ts:50-62 | the rows of a title append the schedules of its timed rows, in order |
| ConvertSummer.Converted | scripts/convert-summer-events.ts:32-62 | the written events: one record per title in first-appearance order; ConvertedRecords, ConvertedTitlesInOrder and ConvertedTitles state them |
| ConvertSummer.ConvertedRecords | scripts/convert-summer-events.ts:32-62 | each entry: floor "その他", slot 30, the first row's image, platform or ["PC"], the schedules of its timed rows |
| ConvertSummer.ConvertedTitlesInOrder | scripts/convert-summer-events.ts:32-68 | entries come in order of first title appearance |
| ConvertSummer.ConvertedTitles | scripts/convert-summer-events.ts:32-47 | no two entries share a title, and each row's title has an entry |
| UpdatePaths.ArtistPaths | update_events_paths.py:11 | the name-to-href dict comprehension; ArtistPathsLastWins states its keys and values |
| UpdatePaths.ArtistPathsLastWins | update_events_paths.py:11 | the keys are exactly the artist names, each mapped to the href of the last artist of that name |
| UpdatePaths.Updated | update_events_paths.py:14-16 | one event with its path set when its title is an artist name; UpdatedEvent states the change |
| UpdatePaths.UpdatedEvent | update_events_paths.py:14-16 | an event titled with an artist name gets that href, any other event is unchanged; no other field changes |
| UpdatePaths.UpdatedAll | update_events_paths.py:14-16 | every event is updated in its own place; length and order are kept |
| UpdatePaths.UpdateEventPaths | update_events_paths.py:14-16 | the in-place loop leaves the array equal to the updated list |
| UpdatePaths.UpdateIdempotent | update_events_paths.py:11-16 | running the update twice changes nothing more |
| Civil.DateOfDay | app/composables/useScheduleShare.ts:31-39 | the date of a day number is valid and has that number |
| Civil.DayNumberInjective | app/composables/useScheduleShare.ts:26-39 | distinct valid dates have distinct day numbers |
| Civil.DateOfDayNumber | app/composables/useScheduleShare.ts:26-39 | a valid date is recovered from its day number |
| Civil.NextDayNumber | app/composables/useScheduleShare.ts:26-29 | the next day is valid and numbered one more |
| Civil.DateTimeOfMinutes | server/controller.ts:105-109 | the reading of a minute offset is valid and has that offset |
| Civil.DateTimeOfMinutesInverse | server/controller.ts:105-109 | a valid reading is recovered from its offset |
| Civil.MakeDayOfValidDate | app/composables/useScheduleShare.ts:27 | Date.UTC's day of a valid date from year 100 on is its day number |
| Civil.MakeMinutesOfValid | utils/date.ts:11-20 | the local-time constructor's minute of a valid reading is its offset |
| Text.SplitJoin | scripts/convert-complete-events.ts:95 | joining the pieces of split(":") with ":" gives the text back; no piece holds ":" |
| Text.JoinSplit | scripts/convert-complete-events.ts:95 | splitting joined ":"-free pieces gives the pieces back |
| Grouping.FirstAppearanceFacts | scripts/convert-complete-events.ts:70-89 | a Map's key order lists each key once, and only keys that occur |
| Grouping.GroupsPartition | app/components/SelectedSchedules.tsx:43-53 | the groups' sizes add up to the number of elements |
| Grouping.FirstAppearanceOrder | app/components/SelectedSchedules.tsx:69 | an element of a later key is preceded by an element of each earlier key |
| Seqs.SortSorted | app/hooks/useEventSorting.ts:26-41 | the sort of a total preorder is ordered |
| Seqs.InsertStable | app/hooks/useEventSorting.ts:26-41 | inserting x adds it ahead of every element the comparator ranks level with it, and reorders nothing else |
| Seqs.SortStable | app/hooks/useEventSorting.ts:26-41 | the sort is stable, as ECMAScript requires of `Array.prototype.sort`: elements ranked level keep their input order |

## Left out

- LZ-string compression is not modelled. It is a foreign library, represented as an abstract function pair; the round trip assumes it is invertible.
- `url.toString()` is not modelled: URL serialisation is browser code. Only the query list update is modelled.
- Floating-point `Date.UTC` arithmetic and `TimeClip` (instants beyond 10^8 days are NaN) are left out. The day offset is exact integer day arithmetic.
- `console.warn` on duplicate short uids is output only, and left out.
- The time zone is taken to have no daylight-saving jumps, because the iCalendar code and `calculateEndTime` compute in local time. The server clock and the browser "today" become parameters. So does DTSTAMP, read per event as `clock(i)`.
- The calendar request's date-time fields are numbers in the model. `dateFns.parse` is modelled by date validity: a real calendar day, a year from 1 to 9999, an hour below 24 and a minute below 60.
- CalendarExport.EscapedText: carriage return and the other control characters pass through the escaping unchanged, as in the code, so a description holding them is not RFC 5545 TEXT; the model promises only the four escapes.
- CRLF line endings and 75-octet line folding are not implemented by the code, so not modelled; the model uses the code's "\n" join. SUMMARY is unescaped, as in the code.
- HTTP plumbing (hono contexts, zod as a library) is reduced to status codes and messages. `calendarEventSchema` is reduced to its non-empty rule.
- handleAddToCalendar's authentication, fetch and notification, and the clearing after success, are network and UI effects. Only its mapping and "Event not found" check are modelled.
- Loading events through fetch, including `Number.parseInt` of their fields, is I/O. The models reduce it to `SetEvents`.
- Text comparison is simplified. `localeCompare` on the zero-padded ASCII digit keys of the in-group sort is modelled as ordinal comparison. Key and title strings are Dafny strings without Unicode normalisation.
- `getScheduleDate`'s branch for a time given as an array is not modelled, because the typed schedules always hold an object.
- SelectedSchedulesView.SortGroup: models the in-place `.sort` of each group on values (a stable sorted permutation), not its in-place mutation.
- Non-integer arguments to `setStep` are not modelled; the step is an integer.
- The UUIDv5 uid generation of the conversion scripts, and `scripts/generate-event-ids.ts`, are foreign hash code. The uid is a parameter `uidOf`.
- File reading and writing, JSON loading and console output of the three scripts are I/O, and left out.
- ConvertComplete.ScheduleOf: takes the row's time as a string. A row without `time` would make `split` throw in the script; the model does not cover that crash.
- UpdatePaths.ArtistPaths: models names as strings; a Python `None` name or an event whose `title` is absent is covered only as an absent title.
- The React components and scrapers are rendering, browser automation and DOM effects, and not modelled.
