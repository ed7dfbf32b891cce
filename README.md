# Weekly schedule: week-keyed session and store, in Dafny

This project models the core of a weekly work-schedule editor. The screen
(`App.tsx`) resolves the current week to its Monday, loads that week's seven
days from a browser key-value store (`db.ts`) or creates and saves a blank
week, and applies add, edit and delete actions to the days on screen, saving
the whole week after each one. The table (`components/ScheduleTable.tsx`)
flags an event as new for five minutes after its last change.

Modules (Dafny file; source modelled):

- `Types` (types.dfy; types.ts): `ScheduleEvent`, `ScheduleDay` and the add-form fields, with `Option` for the optional fields.
- `Decimal` (decimal.dfy; App.tsx, `formatDate`): `String(n)` and `padStart(w, '0')`, with parsers that read them back.
- `Calendar` (calendar.dfy; App.tsx, `formatDate`, `getMonday` and the week identifier): dates as day numbers
  since 1970-01-01, the weekday (`getDay`), `getMonday`, the proleptic Gregorian calendar date of a day number,
  `formatDate` (`DD/MM/YYYY`) and the week identifier (`YYYY-MM-DD` of the Monday).
- `Db` (db.dfy; db.ts): the store as a class holding a `map` from week identifier to record `{weekId, schedule}`,
  the memoised `dbPromise`, and `getSchedule`/`saveSchedule`.
- `App` (app.dfy; App.tsx): the blank week, load-or-init as a function and as a method, the event list
  operations, and the screen as a class `ScheduleApp` whose `scheduleData` the handlers replace.
- `ScheduleTable` (schedule_table.dfy; components/ScheduleTable.tsx): the `isNew` predicate.

Environment inputs become parameters: `today` (the local day number of `new Date()`), `now`
(`Date.now()`), the fresh event id, whether the database opens (`available`, fixed for the
store's lifetime) and whether each read or write transaction succeeds (`getOk`, `saveOk`, `putOk`,
`txOk`).

`persistSchedule` recomputes the week identifier from the day on which it runs
(App.tsx:62-63), not from the week that was loaded; the model keeps this: every
handler takes `today` and saves under `WeekIdOf(today)`.

## Model

| member | source | states |
|---|---|---|
| `Decimal.NatToString` | App.tsx:11-13 | `String(n)` of a non-negative number is non-empty, decimal digits only, and starts with `0` only when it is `"0"` |
| `Decimal.IntToString` | App.tsx:13-14 | `String(year)` is non-empty and starts with `-` exactly when the year is negative |
| `Decimal.PadStart` | App.tsx:11-12 | `padStart(width, '0')` of a number's digits yields decimal digits only |
| `Decimal.PadStartLength` | App.tsx:11-12 | the padded string is `width` long when the number has fewer digits, and the number's own digits otherwise |
| `Decimal.PadStartWidth` | App.tsx:11-12 | a number below `10^width` is padded to exactly `width` characters, so a day or month is always two characters |
| `Decimal.PadStartReadsBack` | App.tsx:11-12 | a zero-padded number reads back as the number |
| `Decimal.ParseNatToString` | App.tsx:11-13 | the decimal digits of a number read back as that number |
| `Decimal.IntToStringRoundTrip` | App.tsx:13-14 | `String(year)`, with a minus sign for a negative year, reads back as the year |
| `Calendar.Weekday` | App.tsx:19 | `getDay` of a day number: the contract bounds it to 0 (Sunday) to 6 (Saturday); the definition anchors day 0 (1970-01-01) on Thursday |
| `Calendar.GetMonday` | App.tsx:17-22 | the result is a Monday, 0 to 6 days on or before the input |
| `Calendar.GetMondayStepsBack` | App.tsx:19-21 | the step back is `weekday - 1` days for Monday to Saturday and 6 days for Sunday |
| `Calendar.SundayResolvesBackwards` | App.tsx:20 | a Sunday resolves to the Monday six days earlier, not the following one |
| `Calendar.SameWeekSameMonday` | App.tsx:17-22 | two dates map to the same Monday if and only if the second lies in the Monday-to-Sunday span of the first |
| `Calendar.NextWeekMonday` | App.tsx:17-22 | every date of the following week maps to the Monday seven days later |
| `Calendar.FromDays` | App.tsx:11-13 | the calendar date (`getDate`, `getMonth() + 1`, `getFullYear`) of a day number is a valid date: month 1 to 12, day 1 to the length of that month in that year |
| `Calendar.FromDaysToDays` | App.tsx:11-13 | the calendar date of a day number has that day number again |
| `Calendar.FromToDays` | App.tsx:11-13 | every valid calendar date is the date of its own day number, so dates and day numbers correspond one to one |
| `Calendar.FormatCivil` | App.tsx:10-15 | `DD/MM/YYYY` of a valid calendar date, day and month zero-padded to two digits and the year by `String`; what it guarantees is stated by `Calendar.DisplayDateRoundTrip` |
| `Calendar.FormatDate` | App.tsx:10-15 | `formatDate` of a day number is the display string of its calendar date; it is one to one (`Calendar.FormatDateInjective`) |
| `Calendar.DisplayDateRoundTrip` | App.tsx:10-15 | `formatDate` gives `DD/MM/YYYY` with two-digit day and month and an unpadded year, and the string determines the date |
| `Calendar.FormatDateInjective` | App.tsx:10-15 | two days have the same display date if and only if they are the same day |
| `Calendar.IsoYear` | App.tsx:27-28 | the year field of `toISOString`: four digits for years 0 to 9999, otherwise a sign and six digits; its width and read-back are stated by `Calendar.IsoYearWidth` and `Calendar.IsoYearRoundTrip` |
| `Calendar.IsoYearWidth` | App.tsx:28 | the year field is 4 characters for years 0 to 9999 and 7 characters for other years of magnitude below 1000000 |
| `Calendar.IsoYearRoundTrip` | App.tsx:28 | the year field is at least four characters, has the shape of an ISO year, and reads back as the year |
| `Calendar.IsoDate` | App.tsx:27-28 | `YYYY-MM-DD` of a valid calendar date; it reads back as the date (`Calendar.IsoDateRoundTrip`) |
| `Calendar.IsoDateRoundTrip` | App.tsx:28 | the `YYYY-MM-DD` identifier reads back as the calendar date it renders |
| `Calendar.WeekIdOf` | App.tsx:62-63 | the week identifier computed by `loadSchedule` (App.tsx:27-28) and by `persistSchedule`: the `YYYY-MM-DD` of the Monday of the week; it is the same for two days exactly when they share a week (`Calendar.WeekIdSameIffSameWeek`) |
| `Calendar.WeekIdSameIffSameWeek` | App.tsx:27-28 | two days get the same week identifier if and only if they lie in the same Monday-to-Sunday week |
| `Calendar.AdjacentWeeksDiffer` | App.tsx:27-28 | days of adjacent weeks get Mondays seven days apart and different identifiers |
| `Db.Put` | db.ts:43-49 | a save keeps every record under its own `weekId` and adds the saved week to the keys |
| `Db.Lookup` | db.ts:38-40 | the schedule stored under a week identifier, or absent when there is no record; stated by `Db.LookupMissing` and `Db.PutThenLookup` |
| `Db.LookupMissing` | db.ts:38-40 | a week without a record reads as absent (`null`) |
| `Db.PutThenLookup` | db.ts:34-49 | reading a week after saving it returns the saved days, and the stored record is `{weekId, schedule}` |
| `Db.PutKeepsOtherWeeks` | db.ts:43-49 | saving one week leaves the record of every other week as it was |
| `Db.PutOverwrites` | db.ts:43-49 | a second save of a week fully replaces the first |
| `Db.WeekStore.constructor` | db.ts:19 | the store starts with no cached handle and nothing opened |
| `Db.WeekStore.InitDB` | db.ts:21-32 | the first call opens the database once; later calls return the cached outcome, a failed open included, and open nothing |
| `Db.WeekStore.GetSchedule` | db.ts:34-41 | returns only the stored schedule, or absent when there is no record; fails when the open or the transaction fails; the records do not change |
| `Db.WeekStore.SaveSchedule` | db.ts:43-49 | on success the week's record becomes `{weekId, schedule}` and nothing else changes; on failure nothing changes |
| `App.BlankWeek` | App.tsx:36-46 | the seven blank days of a Monday's week; their shape is stated by `App.BlankWeekShape`, and `App.NewWeekData` builds them |
| `App.NewWeekData` | App.tsx:36-46 | the loop builds exactly the blank week of the Monday |
| `App.BlankWeekShape` | App.tsx:36-46 | the blank week has 7 days, Monday to Sunday, day `i` labelled `vietnameseDays[i]`, dated `monday + i` (pairwise distinct dates) and without events |
| `App.GetWeekRange` | App.tsx:99-109 | `getWeekRange`: the display dates of the Monday of today's week and of the day six days later; stated by `App.WeekRangeBoundsBlankWeek` |
| `App.WeekRangeBoundsBlankWeek` | App.tsx:99-109 | the header range is the first and last date of the week's grid, ends on a Sunday, and contains today |
| `App.LoadOrInit` | App.tsx:24-58 | a non-empty loaded schedule is exactly what the store holds for the week; no other week's record changes; records stay keyed by their week |
| `App.LoadFindsStoredWeek` | App.tsx:30-33 | a stored week is shown unchanged and nothing is saved |
| `App.LoadCreatesMissingWeek` | App.tsx:34-48 | a missing week is created as the 7-day blank week, saved under the week's identifier and shown |
| `App.LoadFailureEmptiesSchedule` | App.tsx:47-54 | a failed open, read, or save of the blank week ends with an empty schedule and an unchanged store |
| `App.LoadIsIdempotent` | App.tsx:24-58 | loading again on any day of the same week shows the same days and changes nothing |
| `App.NewEvent` | App.tsx:73-77 | the added event has the given id and `lastModified == now`, and carries the form's six fields unchanged |
| `App.Stamped` | App.tsx:86 | the edited event keeps its id, gets `lastModified == now`, and no other field changes |
| `App.WithEvents` | App.tsx:84-85 | the copied schedule (App.tsx:72, 84, 93) with day `dayIndex`'s events replaced: same length, that day keeps its date and label, every other day unchanged |
| `App.ReplaceEvents` | App.tsx:85-87 | the edit keeps the length and order; every event with the edited id becomes the edited event stamped with `now`; others are unchanged; ids never change |
| `App.RemoveEvents` | App.tsx:94 | the kept events are exactly those whose id differs from the deleted one |
| `App.RemoveEventsAppend` | App.tsx:94 | deletion distributes over concatenation, so the kept events stay in order |
| `App.RemoveEventsCounts` | App.tsx:94 | every copy of an event with the id is removed and every other event keeps its multiplicity |
| `App.RemoveEventsAbsent` | App.tsx:94 | deleting an id no event has changes nothing |
| `App.RemoveEventsIdempotent` | App.tsx:94 | deleting twice is deleting once |
| `App.ReplaceEventsAbsent` | App.tsx:85-87 | editing with an id no event has changes nothing |
| `App.UnknownIdLeavesScheduleUnchanged` | App.tsx:83-97 | editing or deleting an unknown id leaves the whole schedule unchanged |
| `App.RemoveEventsKeepsIdsUnique` | App.tsx:94 | deletion keeps the ids of a day unique |
| `App.EditsKeepIdsUnique` | App.tsx:71-89 | adding an event with a fresh id, and editing, keep the ids of a day unique |
| `App.AddThenDeleteRestores` | App.tsx:71-97 | adding an event with a fresh id and then deleting that id restores the schedule |
| `App.TouchedEventIsNew` | App.tsx:73-87 | an added or edited event is stamped with `now` and is flagged new for the next five minutes (when `now` is not 0) |
| `App.ScheduleApp.constructor` | App.tsx:8 | the screen starts with no days |
| `App.ScheduleApp.LoadSchedule` | App.tsx:24-58 | the days shown and the store afterwards are those of the load-or-init function, for the week of `today`; afterwards the store's cached `dbPromise` is the outcome of its single open |
| `App.ScheduleApp.PersistSchedule` | App.tsx:60-68 | saves under the identifier of the week of `today`; a failure leaves the store unchanged and is reported, not raised; afterwards the store's cached `dbPromise` is the outcome of its single open |
| `App.ScheduleApp.HandleAddEvent` | App.tsx:71-81 | day `dayIndex` gains exactly the new event at its end, every other day and earlier event is unchanged, then the week is saved; the change stays on screen if the save fails; afterwards the store's cached `dbPromise` is the outcome of its single open |
| `App.ScheduleApp.HandleEditEvent` | App.tsx:83-90 | day `dayIndex`'s events are replaced by the edit, other days unchanged, then the week is saved best-effort; afterwards the store's cached `dbPromise` is the outcome of its single open |
| `App.ScheduleApp.HandleDeleteEvent` | App.tsx:92-97 | day `dayIndex`'s events lose those with the id, other days unchanged, then the week is saved best-effort; afterwards the store's cached `dbPromise` is the outcome of its single open |
| `ScheduleTable.IsNew` | components/ScheduleTable.tsx:121-122 | `isNew`: the event has a non-zero `lastModified` and `currentTime - lastModified < 300000`; stated by the lemmas below |
| `ScheduleTable.UnstampedNeverNew` | components/ScheduleTable.tsx:122 | an event with no `lastModified`, or with 0, is never new |
| `ScheduleTable.NewExactlyWithinWindow` | components/ScheduleTable.tsx:121-122 | with a non-zero stamp, an event is new exactly when `currentTime - lastModified < 300000` |
| `ScheduleTable.WindowIsStrict` | components/ScheduleTable.tsx:122 | new at 299999 ms after the stamp, no longer new at 300000 ms |
| `ScheduleTable.FutureStampIsNew` | components/ScheduleTable.tsx:122 | a stamp in the future counts as new |
| `ScheduleTable.NewnessNeverReturns` | components/ScheduleTable.tsx:122 | once an event is no longer new, it is not new at any later time |

## Left out

- Time zones: `toISOString()` (App.tsx:28) renders the Monday in UTC; east of UTC, a load made before the local offset has passed (before 07:00 at UTC+7) renders the Monday as the preceding Sunday's date, so the identifier depends on the time of day. The model names the week by the Monday's local calendar date.
- Time of day: `getMonday` keeps the time of day of `new Date()`; the model works on whole days.
- The range of JavaScript dates (about 275000 years either side of 1970) and the `RangeError` of `toISOString` beyond it; the model's day numbers are unbounded.
- The event id format `event-<Date.now()>-<Math.random()>` (App.tsx:75): the id is a parameter assumed fresh within the day.
- `App.ScheduleApp.HandleAddEvent`: `[...scheduleData]` copies only the outer array (App.tsx:72), so the `push` (App.tsx:78) also appends the event to the day of the previous state; the model replaces the day by value, so that aliasing is not represented.
- `App.ScheduleApp.HandleEditEvent` and `App.ScheduleApp.HandleDeleteEvent`: the new events array is assigned to the `events` field of a day object that the previous state shares (App.tsx:85, 94); the model replaces the day by value, so that aliasing is not represented.
- Asynchrony: the awaits of the store calls, the ordering of React state updates and stale closures over `scheduleData` are not modelled; each handler runs to completion.
- The `upgrade` callback, transactions and `tx.done` of the IndexedDB library (db.ts:24-30, 35-48): the store is a map, and each read or write succeeds or fails as a whole.
- `console.error` logging of load and save failures.
- The ten-second refresh timer (components/ScheduleTable.tsx:27-35), `window.confirm` before deleting, the today highlight (App.tsx:132), the modal forms and all rendering.
