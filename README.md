# Time tracker core, modelled in Dafny

This project models the logic of the single-page time tracker in `script.js`: its
`TimeTracker` class with the page wiring removed. A user names an activity and starts a
timer. Stopping it turns the session into a completed record `{name, startTime, endTime,
duration}` appended to today's log. The log and the running session are kept in
`localStorage`. A reload keeps only the records that started today and resumes a running
session. The page shows the total time, a per-name breakdown sorted by time spent, and
`HH:MM:SS` / `{h}h {m}m` displays.

Modules:

- `Wrappers` (wrappers.dfy): `Option`, standing for the fields that may be `null`.
- `Activity` (activity.dfy): the completed record and `Math.floor((end - start) / 1000)`.
- `JsText` (text.dfy): `String.prototype.trim`, with ECMAScript's white-space set.
- `Format` (format.dfy): `formatDuration`, `formatDurationShort`, the decimal and
  zero-padding they rely on, readers that parse the displays back, and the breakdown
  bar's percentage.
- `Storage` (storage.dfy): the two `localStorage` keys, the typed values stored under
  them, and `loadActivities`' same-day filter.
- `Aggregate` (aggregate.dfy): `getTotalTime` and `getBreakdown`, with the grouping,
  sorting and group-sum lemmas.
- `Tracker` (tracker.dfy): the class `TimeTracker`, with the fields `currentActivity`,
  `startTime`, `activities` and `store`. Its methods change those fields in place, as
  the source does. The module also holds page-reload scenarios (start, stop, clear, then
  construct a new tracker on the same store).
- `PlainObjectBreakdown` (plain_object.dfy): `getBreakdown`'s `{}` accumulator taken
  literally, object-prototype members included (see Findings).

Inputs from the host become parameters:

- `new Date()` becomes `now`, an instant in milliseconds.
- The local calendar day that `toDateString` compares becomes a function `dayOf: int -> int`.
- The text of the name field becomes `input`.
- `localStorage` becomes the field `store: map<string, StoreValue>`. The constructor
  receives it, standing for what the previous page left behind.

`getTotalTime` and `getBreakdown` only read `this.activities`, so they are modelled on
the log value (`Aggregate.Total`, `Aggregate.Breakdown`).

Where a cleaner design for the tracker would behave differently, the model follows the
code as written:

- Starting while a session runs is not rejected with an error. The page disables the
  name field instead, so `StartTimer` requires an idle tracker.
- Stopping while idle is a silent no-op, not a `NotRunning` error. This also holds while
  the loaded name is empty, since the source tests the name for truthiness.
- Durations are not clamped at zero. A clock set back gives a negative duration.
- Equal-duration groups keep first-sighting order, except that integer-like names
  (such as `42`) come first, in numeric order: the order comes from `Object.entries`,
  then a stable sort.
- A stored value that does not parse is not treated as absent. `JSON.parse` would throw,
  so the model requires the store to hold well-formed values (`Storage.WellFormed`).

## Model

| member | source | states |
|---|---|---|
| Activity.ElapsedSeconds | script.js:72 | the duration is floor((end - start) / 1000): `secs*1000 <= end - start < secs*1000 + 1000`; it is non-negative exactly when end >= start, with no clamping |
| JsText.TrimStart | script.js:41 | the result is a suffix of the input; everything removed is ECMAScript white space; the result does not start with white space |
| JsText.TrimStartKeeps | script.js:41 | dropping leading white space keeps every other character, as many times as it occurs |
| JsText.TrimEnd | script.js:41 | the result is a prefix of the input; everything removed is white space; the result does not end with white space |
| JsText.TrimEndKeeps | script.js:41 | dropping trailing white space keeps every other character, as many times as it occurs |
| JsText.Trim | script.js:41 | a non-empty `trim()` result starts and ends with a non-white-space character |
| JsText.TrimKeepsText | script.js:41-43 | `trim()` is empty (the falsy name `startTimer` rejects) exactly when the name is all white space, and it keeps every non-white-space character of the input |
| JsText.TrimIdempotent | script.js:41 | trimming an already trimmed name changes nothing |
| Format.DigitChar | script.js:131 | a digit below 10 is spelled by the digit character of that value |
| Format.DecimalString | script.js:131 | `String(n)` is a non-empty digit string that reads back as n, has no leading zero, and has one digit for n < 10 and at most two for n < 100 |
| Format.CanonicalIsDecimal | script.js:131 | a digit string with no superfluous leading zero is the `String` spelling of its value, so `String(n)` is the only such spelling of n |
| Format.PadStart | script.js:131 | `padStart(width, fill)` keeps the string as its suffix, reaches at least `width` characters, and fills only the front with `fill` |
| Format.LeadingZeros | script.js:131 | zero padding does not change the value a digit string denotes |
| Format.AllZeros | script.js:131 | a run of zeros denotes 0 |
| Format.ClockField | script.js:131 | `String(n).padStart(2, '0')` reads back as n; it is `String(n)` itself from 10 on and `0` followed by `String(n)` below 10 |
| Format.CanonicalClockField | script.js:131 | a digit field of two characters, or longer without a leading zero, is the padded field of its value |
| Format.ClockSplit | script.js:127-129 | hours, minutes and seconds recombine to the input; minutes and seconds lie in 0..59; hours fit two digits exactly when seconds < 360000 |
| Format.ClockFieldWidth | script.js:131 | a padded field is exactly two characters wide when its number is below 100 |
| Format.ClockShape | script.js:131 | where the colon-joined fields sit in the display |
| Format.ClockRead | script.js:131 | a display with digit fields between two colons, an hour field of two digits or with no leading zero, and minutes and seconds below 60, reads back as those hours, minutes and seconds |
| Format.ClockJoinReads | script.js:131 | two-digit minute and second fields below 60 after an hour field of two digits (or more, with no leading zero), joined by colons, read back as the seconds they spell |
| Format.ClockDisplay | script.js:131 | the joined display is at least 8 characters, and exactly 8 when the hours are below 100 |
| Format.ClockDisplayReads | script.js:131 | the joined display of hours, minutes and seconds reads back as hours * 3600 + minutes * 60 + seconds |
| Format.FormatDuration | script.js:126-132 | the display is a clock reading (two-digit minute and second fields below 60) that parses back to the seconds; it is 8 characters exactly when under 100 hours |
| Format.ClockReadingFields | script.js:126-131 | in any clock reading of s seconds the hour field is s / 3600, not wrapped at 24, the minute field (s % 3600) / 60 and the second field s % 60 |
| Format.ClockReadingIsDisplay | script.js:126-131 | a clock reading of s seconds is exactly `formatDuration(s)`: no other text (say `0100:00:00` or `00:60:00`) reads back as the same seconds |
| Format.FormatDurationFields | script.js:126-131 | the display is the padded hour, minute and second fields joined by colons |
| Format.DivideClock | script.js:127-129 | hours, minutes below 60 and seconds below 60 that recombine to s are exactly the quotients and remainders the source computes |
| Format.NoHourMark | script.js:139-141 | a digit string holds no `h` |
| Format.FormatDurationShort | script.js:134-142 | the text ends in `m` |
| Format.ShortDisplay | script.js:138-141 | both branches end in `m` |
| Format.ShortShowsHours | script.js:138-141 | the text contains an `h` (the `"{h}h "` prefix) exactly when there is a whole hour |
| Format.ShortDisplayHourMark | script.js:138-141 | the `{h}h ` prefix appears exactly when hours > 0 |
| Format.ShortReadsBack | script.js:134-142 | the text reads back as the seconds rounded down to whole minutes |
| Format.ShortReadingIsDisplay | script.js:134-142 | a short reading of some seconds is a whole number of minutes and is exactly `formatDurationShort` of them: the hour field is the whole hours and the minute field the minutes left over, so `0h 85m` or `1h 05m` never read back |
| Format.ShortDisplayReads | script.js:138-141 | both branches, for minutes below 60, read back as hours * 3600 + minutes * 60 |
| Format.HoursJoinReads | script.js:139 | `String`-spelled hours above 0, `h `, `String`-spelled minutes below 60 and `m` read back as those hours and minutes |
| Format.HoursMinutesShape | script.js:139 | where the hour digits, the `h `, the minute digits and the `m` sit in the `{h}h {m}m` branch |
| Format.ShortRead | script.js:139 | a text laid out as `String`-spelled hours above 0, `h `, `String`-spelled minutes below 60 and `m` reads back as those hours and minutes |
| Format.MinutesShape | script.js:141 | the `{m}m` branch, with `String`-spelled minutes below 60, reads back as m minutes |
| Format.ShortExample | script.js:134-142 | 1530 seconds (09:00:00 to 09:25:30) display as `25m` |
| Format.Percentage | script.js:248 | the bar width is 0 when the total is not positive, satisfies width * total == 100 * part otherwise, and lies in 0..100 when 0 <= part <= total |
| Storage.OnDay | script.js:160-163 | the filtered log is never longer than the stored one |
| Storage.OnDayContents | script.js:160-163 | the filter keeps exactly the records that started on the given day, each as often as stored, and drops the others |
| Storage.LoadActivities | script.js:153-168 | loading gives the stored records filtered to `now`'s day, or nothing when no log is stored; every loaded record started today |
| Storage.OnDayAppend | script.js:160-163 | filtering a concatenation filters each part in order, so the stored order is preserved |
| Storage.OnDayKeepsToday | script.js:160-163 | a log of today's records passes the filter unchanged |
| Storage.OnDayIdempotent | script.js:153-168 | loading on the same day twice gives what loading once gave |
| Storage.SavedRecordReloads | script.js:153-172 | a record saved at the end of today's log comes back, last and unchanged, when the log is reloaded on its start day |
| Storage.ClearedLogLoadsEmpty | script.js:153-180 | a log saved empty loads empty on any day |
| Aggregate.Total | script.js:182-184 | the `reduce` total; it is non-negative when every duration is |
| Aggregate.TotalAppend | script.js:182-184 | the total of a log is the sum of the totals of its parts, so appending a record adds its duration |
| Aggregate.OccursSnoc | script.js:189-194 | a name occurs in an extended log exactly when it occurred before or is the new record's |
| Aggregate.NameTotalAbsent | script.js:189-194 | a name carried by no record has a group sum of 0 |
| Aggregate.GroupsStep | script.js:189-194 | one more record adds its duration to the groups' sum once when its name is a group, and not at all otherwise |
| Aggregate.GroupsOfNothing | script.js:189-194 | over an empty log the groups sum to 0 |
| Aggregate.GroupsCoverTotal | script.js:186-194 | distinct names covering every record split the total exactly: the groups' durations sum to `getTotalTime` |
| Aggregate.Insert | script.js:198 | insertion adds one entry and changes the multiset only by it, and adds its duration to the sum |
| Aggregate.InsertMember | script.js:198 | every entry after an insertion is the inserted one or was there before |
| Aggregate.InsertDescending | script.js:198 | inserting into a non-increasing sequence keeps it non-increasing |
| Aggregate.DescendingCons | script.js:198 | an entry at least as long as every entry of a non-increasing sequence can head it |
| Aggregate.DistinctCons | script.js:196-198 | an entry with a name no other entry carries can head a sequence with distinct names |
| Aggregate.InsertDistinct | script.js:198 | inserting an entry with a fresh name keeps names pairwise distinct |
| Aggregate.SortByDuration | script.js:198 | the sort is a permutation of its input, non-increasing by duration, with the same duration sum |
| Aggregate.SortDistinct | script.js:198 | sorting keeps names pairwise distinct |
| Aggregate.SortedGroups | script.js:196-198 | sorting the groups of any distinct covering name list gives the promised breakdown: distinct names, each with its group sum, every record's name present, durations summing to the total |
| Aggregate.SortedGroupsSound | script.js:196-198 | every sorted entry is a name of the log with its group sum |
| Aggregate.SortedGroupsCover | script.js:196-198 | every record's name has a sorted entry |
| Aggregate.Breakdown | script.js:186-199 | `getBreakdown`: names pairwise distinct; each entry names an activity in the log and holds that name's summed duration; every activity's name has an entry; non-increasing by duration; durations sum to the total |
| Tracker.TimeTracker.constructor | script.js:3-13 | a page load: the store is kept; the log is the store's records for `now`'s day; a persisted session is resumed with its name and start, otherwise the tracker is idle |
| Tracker.TimeTracker.StartTimer | script.js:40-55 | a name that trims to empty leaves session, log and store unchanged; otherwise the session is (trimmed name, now), stored identically under `activeTimer`, with the log unchanged |
| Tracker.TimeTracker.StopTimer | script.js:68-90 | idle (or empty name): nothing changes; running: exactly one record (name, start, now, floor((now - start)/1000)) is appended after the unchanged earlier records, the stored log equals the new log, `activeTimer` is removed and the tracker is idle |
| Tracker.TimeTracker.CheckForActiveTimer | script.js:108-113 | a stored session becomes the in-memory session; without one nothing changes |
| Tracker.TimeTracker.SaveActivities | script.js:170-172 | the stored log becomes the in-memory log; nothing else in the store changes |
| Tracker.TimeTracker.ClearAll | script.js:174-180 | the log and the stored log become empty; the session is untouched |
| Tracker.ReloadResumesSession | script.js:108-113 | after a start, a reloaded page resumes the trimmed name and the identical start instant |
| Tracker.ReloadKeepsStoppedActivity | script.js:71-82 | start, stop and a same-day reload give the loaded log followed by the stopped record; the total grows by its duration |
| Tracker.ClearThenReload | script.js:174-177 | after clearing, the log, a reload on any day and the total are all empty or 0 |
| PlainObjectBreakdown.Step | script.js:190-193 | one callback as written: a falsy `o[name]` (own, else inherited, else undefined) is reset to 0, then `+=` adds the duration; any name but `__proto__` ends up an own property, appended to the key order when new; on `__proto__` the inherited getter's value is truthy, so the reset is skipped, and the setter ignores the `+=`: nothing changes |
| PlainObjectBreakdown.AccumulateAsWritten | script.js:187-194 | the object after the `forEach` over the log: it never gets an own `__proto__` and has at most one key per record; what it holds is stated by `AgreesOffPrototype`, `KeysAreOwn`, `ProtoActivityIsDropped` and `InheritedNameLosesItsSum` |
| PlainObjectBreakdown.AgreesOffPrototype | script.js:187-194 | for names not inherited from `Object.prototype`, the object as written holds exactly the group sum, and has a key exactly for the names in the log |
| PlainObjectBreakdown.StepOtherName | script.js:189-194 | one callback leaves the value and key of every other name as they were |
| PlainObjectBreakdown.StepSameName | script.js:189-194 | on a name the prototype does not supply, holding a number or nothing, one callback adds the duration to that number (or to 0) and records the key |
| PlainObjectBreakdown.KeysAreOwn | script.js:187-194 | the recorded key order lists exactly the object's own properties |
| PlainObjectBreakdown.ProtoActivityIsDropped | script.js:190-193 | a 5-second activity named `__proto__` gets no key although the total counts it |
| PlainObjectBreakdown.InheritedNameLosesItsSum | script.js:190-193 | an activity named `toString` gets a key whose value is a string, not its 60-second sum |

## Findings

| source | as written | input that shows it | evidently intended | confidence | as-written member | corrected member |
|---|---|---|---|---|---|---|
| script.js:187-193 | `const breakdown = {}` inherits `Object.prototype`, so `breakdown["toString"]` is a truthy function: the `= 0` reset is skipped and `+=` concatenates text | one 60-second activity named `toString` | a breakdown line `{toString, 60}` | high; not executed | PlainObjectBreakdown.AccumulateAsWritten, shown by PlainObjectBreakdown.InheritedNameLosesItsSum | Aggregate.Breakdown |
| script.js:187-193 | `breakdown["__proto__"]` reads the inherited prototype object, which is truthy, so the `= 0` is skipped; the `+=` then assigns the string `"[object Object]5"` through the inherited setter, which ignores it | one 5-second activity named `__proto__` | a breakdown line `{__proto__, 5}`, so the lines sum to the total | high; not executed | PlainObjectBreakdown.AccumulateAsWritten, shown by PlainObjectBreakdown.ProtoActivityIsDropped | Aggregate.Breakdown |

The corrected model accumulates into a dictionary without inherited keys (`Aggregate.Breakdown`).
`PlainObjectBreakdown.AgreesOffPrototype` shows that both agree on every other name.

## Left out

- DOM lookup and event wiring (script.js:15-38), input, button and panel visibility in `startTimer`, `stopTimer` and `checkForActiveTimer`, and every `render*` method (script.js:201-262): presentation only.
- `escapeHtml` (script.js:264-268): it depends on the browser's HTML serialisation.
- `updateTimer` and the one-second `setInterval`/`clearInterval` polling (script.js:65, 87, 100-106, 122): a display refresh driven by a host timer. Its elapsed value is the same `Activity.ElapsedSeconds`.
- `alert` and `confirm` (script.js:44, 175): the rejected start is modelled as "nothing changes". `ClearAll` is the confirmed branch only.
- `formatTime` via `toLocaleTimeString` (script.js:144-151): locale behaviour of the host.
- Time zones, `toDateString` and `toISOString`/JSON serialisation: the calendar day is the parameter `dayOf`, and the store holds typed values instead of text. Instants are assumed to lie in the range `toISOString` accepts.
- Failures of `localStorage` (a full quota, storage disabled) and of `JSON.parse` on foreign data: the model requires well-formed values under the tracker's two keys.
- Several pages sharing one store: no concurrency is modelled.
- Tracker.TimeTracker.StartTimer: requires an idle tracker. The source has no guard, and the page only disables the input.
- Aggregate.Breakdown: does not state the order among equal-duration entries. `Object.entries` lists integer-like keys first, in numeric order. The model keeps insertion order throughout.
- Format.FormatDuration: defined for seconds >= 0 only. JavaScript's `%` and `Math.floor` on a negative duration are not modelled.
- Format.FormatDurationShort: defined for seconds >= 0 only, for the same reason. Number-to-string beyond 10^21 (exponent notation) is not modelled.
- Format.Percentage: computed in exact rational arithmetic. The double-precision division and multiplication of the source, and their rounding, are not modelled.
- JsText.Trim: strings are sequences of Unicode scalar values. Unpaired UTF-16 surrogates are not modelled.
