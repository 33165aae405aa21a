# Front-desk scheduling core, modelled in Dafny

This project models the domain logic of a browser-based hospital front desk
(`js/main.js`). The front desk keeps two in-memory tables, patients and
medical appointments, plus one identifier counter for each. It offers four
handlers that change those tables: submit a patient, delete a patient,
submit an appointment and delete an appointment. Around them sit:

- Checks: whether a doctor is free; a patient's cap of two appointments a
  day; the Peruvian national identity number (DNI); the 08:00-18:00 window;
  a date range.
- Slot generation: a doctor's free half-hour slots for a day, taken from
  the `workingHours` configuration.
- Searches: the advanced patient and appointment searches and the
  date/status filter of the appointments table.
- Reports: the monthly statistics, the tallies by specialty and by doctor,
  and the age distribution of patients.
- Display order: the newest-first sort of appointments and the list of the
  five most recent ones.
- Display helpers: the status badge colour and phone formatting.

Modules, one per file:

| file | module | contents |
|---|---|---|
| `wrappers.dfy` | `Wrappers` | `Option` |
| `arith.dfy` | `Arith` | two facts about multiplication and Euclidean division |
| `seqs.dfy` | `Seqs` | `Filter` (JavaScript's `Array.prototype.filter`) and the order it keeps, `FirstIndex` (`find`/`findIndex`/`some`), pairwise invariants |
| `text.dfy` | `Text` | digits, `Number(...)` on digit strings, `toString`, `padStart(2, '0')`, `includes`, `toLowerCase` |
| `clock.dfy` | `Clock` | `timeToMinutes`, `minutesToTime`, `validateWorkingHours` |
| `calendar.dfy` | `Calendar` | dates, their two orders (ISO string order and `new Date` order), `calculateAge`, `validateDateRange` |
| `records.dfy` | `Records` | patients, appointments, the form data, statuses, `getStatusColor`, `formatPhoneNumber` |
| `scheduling.dfy` | `Scheduling` | `isDoctorAvailable`, `validatePatientDailyLimit`, `validatePeruvianDNI`, `workingHours`, `generateTimeSlots` |
| `store.dfy` | `Store` | the tables and counters as the class `RecordStore`, its four handlers and the invariants they keep |
| `search.dfy` | `Search` | `advancedPatientSearch`, `advancedAppointmentSearch`, `filterAppointments` |
| `sorting.dfy` | `Sorting` | the newest-first sort, as an in-place insertion sort on an array, and `loadRecentAppointments` |
| `reports.dfy` | `Reports` | `getMonthlyStats`, `getAppointmentsBySpecialty`, `getAppointmentsByDoctor`, `getPatientsAgeDistribution` |
| `looseids.dfy` | `LooseIds` | identifiers as JavaScript values (number or string) and what an edit does to them |

How the model is built:

- Each handler is a method of `Store.RecordStore`. Its new state is a step
  function of the old state (`SubmitPatientStep`, `DeletePatientStep`, …).
  Lemmas about the step functions state what each handler changes and
  which invariants it keeps: unique identifiers drawn from the counter,
  unique DNIs, and no doctor booked twice.
- Loops in the source are methods with loop invariants: the slot loop, the
  tallies, the age distribution and the sort. Each one is proved against a
  specification function.
- The filters and validators are functions.

Where the code and the written requirements for the system disagree, the
model follows the code:

- The appointment handler does not consult the daily limit, so a third
  appointment on the same day is accepted (`Store.ThirdSameDayAccepted`).
- The patient handler does not check the DNI format.
- A patient is protected from deletion only by a `Programada` (scheduled)
  appointment.
- The "this week" filter starts at the current instant, not at today's
  date. This is a finding, below; the table filter uses the intended week.

## Model

| member | source | states |
|---|---|---|
| `Scheduling.IsDoctorAvailable` | js/main.js:911-919 | the doctor is free exactly when no appointment has that doctor, date and time, is not cancelled, and is not the excluded one |
| `Scheduling.AvailabilityAfterBooking` | js/main.js:911-919 | adding an appointment takes away only the slot it occupies; a cancelled one changes no slot; a booked non-cancelled appointment makes its own slot unavailable |
| `Scheduling.ValidatePatientDailyLimit` | js/main.js:921-931 | fewer than two of the patient's appointments that day count (not cancelled, not the excluded one); characterised by `Scheduling.DailyLimitMeansNoPair` |
| `Scheduling.ValidatePeruvianDNI` | js/main.js:933-943 | eight digits, not all the same; characterised by `Scheduling.DniAcceptance` and `Scheduling.DniExamples` |
| `Scheduling.DailyLimitMeansNoPair` | js/main.js:921-931 | the daily limit holds exactly when no two distinct appointments count toward that patient's day (same patient and date, not cancelled, not excluded) |
| `Scheduling.DniAcceptance` | js/main.js:933-943 | a DNI is accepted exactly when it is eight digits and some two of them differ |
| `Scheduling.DniExamples` | js/main.js:933-943 | eight equal digits, seven digits and a letter are refused; `12345678` is accepted |
| `Clock.TimeToMinutes` | js/main.js:1061-1064 | `split(':')` then `hours * 60 + minutes`, `None` standing for `NaN`; characterised by `Clock.TimeOfParts`, `Clock.ClockTimeValue` and `Clock.MinutesToTimeRoundTrip` |
| `Clock.MinutesToTime` | js/main.js:1066-1070 | hours and minutes of a minute count, each padded to two digits, joined by a colon; characterised by `Clock.MinutesToTimeFormat`, `Clock.MinutesToTimeRoundTrip` and `Clock.ClockTimeRoundTrip` |
| `Clock.ValidateWorkingHours` | js/main.js:767-774 | a time is inside the working day when it reads as a number of minutes from 480 to 1080; characterised by `Clock.WorkingHoursWindow` |
| `Clock.UpToColon` | js/main.js:1062 | the first piece of `split(':')`: a colon-free prefix of the input, followed by a colon or the end |
| `Clock.TimeOfParts` | js/main.js:1061-1064 | two digit strings joined by a colon read as hours times 60 plus minutes |
| `Clock.ClockTimeValue` | js/main.js:1061-1064 | a well-formed `HH:MM` reads as its hours times 60 plus its minutes |
| `Clock.MinutesToTimeRoundTrip` | js/main.js:1061-1070 | `timeToMinutes(minutesToTime(m)) == m` for every non-negative `m` |
| `Clock.MinutesToTimeFormat` | js/main.js:1066-1070 | below 24 hours, `minutesToTime` yields a well-formed `HH:MM` |
| `Clock.ClockTimeRoundTrip` | js/main.js:1061-1070 | every well-formed `HH:MM` reads as fewer than 1440 minutes, and `minutesToTime` of that number gives back the same string |
| `Clock.WorkingHoursWindow` | js/main.js:767-774 | on the times `minutesToTime` writes, `validateWorkingHours` holds exactly from 08:00 to 18:00, both included |
| `Text.NatToDecimalValue` | js/main.js:1069 | `toString` of a number is a non-empty digit string that reads back as the number, one digit long below 10 and two digits long from 10 to 99 |
| `Text.PadStart2Value` | js/main.js:1069 | `padStart(2, '0')` keeps a digit string a digit string with the same value |
| `Text.KeepDigitsFilters` | js/main.js:779 | `replace(/\D/g, '')` keeps exactly the digits of the input, in their order |
| `Scheduling.WalkSteps` | js/main.js:1046-1056 | the loop from `start` while below `end`, stepping by the duration, pushes the formatted form of exactly the kept times, in order |
| `Scheduling.GenerateTimeSlots` | js/main.js:1038-1059 | the result is, in order, `minutesToTime` of each slot minute of the day |
| `Scheduling.SlotMinutesSound` | js/main.js:1038-1059 | every minute returned is a slot: on a step from the start, before the end, outside the lunch break, free for the doctor |
| `Scheduling.SlotMinutesComplete` | js/main.js:1038-1059 | every slot is returned |
| `Scheduling.SlotMinutesAscending` | js/main.js:1046 | the slots are strictly ascending, so none is repeated |
| `Scheduling.SlotProperties` | js/main.js:1038-1059 | a slot lies in the working day on a step from its start, not in a lunch break that reads as numbers, and at no time a non-cancelled appointment of that doctor and date holds |
| `Scheduling.DefaultStartRead` | js/main.js:1031 | the configured start `08:00` reads as 480 minutes |
| `Scheduling.DefaultEndRead` | js/main.js:1032 | the configured end `18:00` reads as 1080 minutes |
| `Scheduling.DefaultLunchStartRead` | js/main.js:1033 | the lunch start `12:00` reads as 720 minutes |
| `Scheduling.DefaultLunchEndRead` | js/main.js:1034 | the lunch end `13:00` reads as 780 minutes |
| `Scheduling.DefaultPlan` | js/main.js:1030-1036 | the shipped configuration reads as 480, 1080, 720, 780 and a 30-minute step |
| `Scheduling.DefaultSlots` | js/main.js:1030-1059 | under the shipped configuration a slot is a half hour in 08:00-18:00 (18:00 excluded), never in 12:00-13:00, and never a time already held for the doctor |
| `Calendar.CalculateAge` | js/main.js:754-765 | the age is the number of completed years: that anniversary has been reached and the next one has not |
| `Calendar.AgeIsUnique` | js/main.js:754-765 | no other number has the completed-years property |
| `Calendar.DayNumberOrder` | js/main.js:945-948 | on real dates, `new Date` order agrees with ISO string order, and equal day numbers mean equal dates |
| `Calendar.ValidateDateRange` | js/main.js:945-948 | a missing start or end accepts; otherwise the start's `new Date` is not after the end's; characterised by `Calendar.DateRangeIsKeyOrder` and `Calendar.DayNumberOrder` |
| `Calendar.DateRangeIsKeyOrder` | js/main.js:945-948 | with both ends given, `validateDateRange` holds exactly when the start is not after the end |
| `Records.PatientOf` | js/main.js:452-461 | the stored patient carries the chosen identifier and the form's name and DNI |
| `Records.AppointmentOf` | js/main.js:647-657 | the stored appointment carries the identifier, the chosen patient, that patient's name and the form's doctor, date, time and status |
| `Records.StatusColor` | js/main.js:722-729 | each of the three statuses has its own colour, and exactly the other strings get `secondary` |
| `Records.FormatPhoneNumber` | js/main.js:776-786 | empty stays empty; nine digits become `ddd ddd ddd` made of those digits in order; anything else is returned unchanged |
| `Store.DniTaken` | js/main.js:464 | true exactly when a patient with another identifier has the DNI |
| `Store.SubmitPatientStep` | js/main.js:448-484 | the new patient table, counter and outcome of `handlePatientSubmit`; characterised by `Store.SubmitPatientEffect` and `Store.SubmitPatientKeepsValid` |
| `Store.SubmitPatientEffect` | js/main.js:448-484 | a new patient is numbered by the incremented counter, which advances even when the DNI is refused; a duplicate DNI refuses exactly when another patient has it; a refused or unmatched edit changes no record; an edit rewrites exactly the record with that identifier |
| `Store.SubmitPatientKeepsValid` | js/main.js:448-484 | a submission keeps the identifiers unique and drawn from the counter, and keeps the DNIs unique |
| `Store.HasScheduledAppointments` | js/main.js:493 | true exactly when some appointment of the patient is `Programada` |
| `Store.DeletePatientStep` | js/main.js:491-505 | `deletePatient`: refused while a scheduled appointment names the patient, otherwise the patients without that identifier; characterised by `Store.DeletePatientEffect` and `Store.DeletionLeavesHistory` |
| `Store.DeletePatientEffect` | js/main.js:491-505 | deletion is refused exactly when a scheduled appointment names the patient; otherwise it removes that identifier and keeps every other patient in its original order (the new table is the old one read at strictly increasing positions, and every position holding another identifier is among them), and the table stays valid |
| `Store.DeletionLeavesHistory` | js/main.js:491-500 | a patient with only completed or cancelled appointments is deleted, and those appointments keep naming an identifier no patient has |
| `Store.HasConflict` | js/main.js:660-666 | the handler's inline `some`: another non-cancelled appointment holds the candidate's doctor, date and time; characterised by `Store.ConflictIsUnavailability` |
| `Store.SubmitAppointmentStep` | js/main.js:635-690 | the new appointment table, counter and outcome of `handleAppointmentSubmit`; characterised by `Store.SubmitAppointmentEffect`, `Store.SubmitAppointmentKeepsValid`, `Store.ThirdSameDayAccepted` and `Store.SlotFreedByCancel` |
| `Store.ConflictIsUnavailability` | js/main.js:660-666 | the handler's inline conflict test is `isDoctorAvailable` with the candidate's own identifier excluded |
| `Store.SubmitAppointmentEffect` | js/main.js:635-690 | an unknown patient refuses the submission before the counter moves; otherwise the counter advances for a new appointment; the slot is refused exactly when another non-cancelled appointment holds it; past those two checks a new appointment is always created, and an edit is an update exactly when a record has its identifier (not found otherwise); a created or updated record carries the patient's name; a creation appends; an update leaves the other records in place |
| `Store.SubmitAppointmentKeepsValid` | js/main.js:635-690 | a submission keeps the identifiers unique and drawn from the counter, and never books a doctor twice |
| `Store.ThirdSameDayAccepted` | js/main.js:635-690 | with two counting appointments already on that day, a third at a free time is created, and the daily limit then fails |
| `Store.DeleteAppointmentStep` | js/main.js:697-707 | `deleteAppointment`: the appointments without that identifier; characterised by `Store.DeleteAppointmentEffect` and `Store.SlotFreedByDelete` |
| `Store.DeleteAppointmentEffect` | js/main.js:697-707 | deletion removes the identifier and keeps every other appointment in its original order (the new table is the old one read at strictly increasing positions, and every position holding another identifier is among them), and the table stays valid |
| `Store.SlotFreedByDelete` | js/main.js:697-707 | deleting a non-cancelled appointment frees its slot: the doctor was unavailable at that date and time before, and is available after |
| `Store.SlotFreedByCancel` | js/main.js:635-690 | resubmitting a non-cancelled appointment under its own identifier with the same doctor, date and time and status `Cancelada` is accepted as an update, and the slot is then free |
| `Store.EditedPatientDeletable` | js/main.js:471-473 | when an edit keeps the numeric identifier, the edited patient can still be found and deleted by it |
| `Store.EditedPatientBookable` | js/main.js:639-644 | when an edit keeps the numeric identifier, the edited patient can still be chosen for an appointment |
| `Store.RecordStore.constructor` | js/main.js:62-63 | the tables hold the seed records, and each counter starts at the number of seed records |
| `Store.RecordStore.SubmitPatient` | js/main.js:448-484 | the new patient table, counter and outcome are those of `SubmitPatientStep`; appointments are untouched; the invariant is kept |
| `Store.RecordStore.DeletePatient` | js/main.js:491-505 | the patient table is that of `DeletePatientStep`, or unchanged when refused; nothing else changes; the invariant is kept |
| `Store.RecordStore.SubmitAppointment` | js/main.js:635-690 | the new appointment table, counter and outcome are those of `SubmitAppointmentStep`; patients are untouched; the invariant is kept |
| `Store.RecordStore.DeleteAppointment` | js/main.js:697-707 | the appointment table is that of `DeleteAppointmentStep`; nothing else changes; the invariant is kept |
| `Search.AdvancedPatientSearch` | js/main.js:849-873 | the result holds exactly the store's patients that pass every filter that is set, each once and in store order (the table read at the ascending positions of the matches) |
| `Search.PatientSearchWithoutFilters` | js/main.js:849-873 | with no filter set, every patient is returned, in order |
| `Search.PatientSearchNarrows` | js/main.js:849-873 | a stricter set of filters returns a subset, never more patients |
| `Search.NameFilterIgnoresCase` | js/main.js:853-855 | lower-casing the name query changes nothing |
| `Search.AgeWindow` | js/main.js:865-869 | a minimum and maximum age keep exactly the patients whose completed years lie between them |
| `Search.AdvancedAppointmentSearch` | js/main.js:875-905 | the result holds exactly the store's appointments that pass every filter that is set, each once and in store order (the table read at the ascending positions of the matches) |
| `Search.AppointmentSearchWithoutFilters` | js/main.js:875-905 | with no filter set, every appointment is returned, in order |
| `Search.DateRangeSearch` | js/main.js:896-902 | a date range keeps only appointments between its ends, and none when `validateDateRange` fails |
| `Search.WeekAsWrittenMissesToday` | js/main.js:581-587 | at any moment after midnight, the week test as written rejects today's appointments |
| `Search.WeekAsWrittenShifted` | js/main.js:581-587 | after midnight, the week test as written is the intended week without its first day |
| `Search.WeekCoversTodayAndTomorrow` | js/main.js:572-587 | the intended week contains what the "today" and "tomorrow" choices show |
| `Search.InDateFilter` | js/main.js:565-589 | the date choice with the intended week: any date, today, tomorrow, or today through seven days on; characterised by `Search.WeekCoversTodayAndTomorrow` |
| `Search.InDateFilterAsWritten` | js/main.js:565-589 | the date choice as written: the week keeps a date whose midnight is at or after the current instant and at most seven days after it; characterised by `Search.WeekAsWrittenShifted` |
| `Search.ByDateAndStatus` | js/main.js:563-593 | the two successive `filter` calls: the result is no longer than the input and holds exactly the appointments passing the date test (unless no date is chosen) and the status test (unless no status is chosen); the result is the table read at the ascending positions passing both tests, so each match appears once and in order |
| `Search.FilterAppointments` | js/main.js:560-596 | with the intended week: the result is no longer than the input and holds exactly the appointments passing the date choice and the status choice, each once and in table order |
| `Search.FilterAppointmentsAsWritten` | js/main.js:560-596 | with the week test as written: the result is no longer than the input and holds exactly the appointments passing that date test and the status choice, each once and in table order |
| `Search.FilterAsWrittenDropsToday` | js/main.js:581-587 | the as-written filter agrees with the intended one on every choice but the week; after midnight its week drops every appointment dated today, which the intended week keeps when the status matches |
| `Search.FilterAppointmentsWithoutChoice` | js/main.js:560-596 | with neither choice made, every appointment is returned, in order |
| `Sorting.SortKey` | js/main.js:535-537 | the instant of `new Date(date + ' ' + time)` in minutes: the day number times 1440 plus the time's minutes; characterised by `Sorting.SortByDateTimeDesc` and `Sorting.SortDescStable` |
| `Sorting.SortDesc` | js/main.js:534-538 | the stable descending sort by a key, built by insertion; characterised by `Sorting.SortDescCorrect` and `Sorting.SortDescStable` |
| `Sorting.SortDescCorrect` | js/main.js:534-538 | the sort puts keys in non-increasing order, is a permutation and keeps the length |
| `Sorting.SortDescStable` | js/main.js:534-538 | appointments with the same date and time keep their relative order |
| `Sorting.InsertLast` | js/main.js:534-538 | one step of the in-place sort inserts the next element into the sorted prefix and leaves the rest of the array alone |
| `Sorting.InsertionSortDesc` | js/main.js:534-538 | the array ends up as the stable descending sort of its old contents |
| `Sorting.SortByDateTimeDesc` | js/main.js:534-538 | the appointment array ends up sorted newest first by date and time |
| `Sorting.NewestCorrect` | js/main.js:291-293 | `sort` then `slice(0, n)` gives `min(n, length)` elements, a sub-multiset of the input (none taken more often than it occurs), newest first, and no element of the input left out is newer than one kept |
| `Sorting.RecentAppointments` | js/main.js:289-293 | `loadRecentAppointments`: the first five after the newest-first sort; characterised by `Sorting.RecentAreNewest` |
| `Sorting.RecentAreNewest` | js/main.js:289-293 | the dashboard lists the five newest appointments (or all when there are fewer), a sub-multiset of the table, newest first, and no appointment of the table left out is newer than one shown |
| `Reports.Increment` | js/main.js:975-978 | one tally step creates the key at zero when missing and adds one |
| `Reports.TallyStep` | js/main.js:974-979 | one tally step keeps the counts equal to the number of items seen with each key |
| `Reports.MapSumRemove` | js/main.js:971-982 | the sum of a tally's values may be taken in any key order: it is any one value plus the sum of the rest |
| `Reports.MapSumBump` | js/main.js:975-978 | one tally step adds exactly one to the sum of the values |
| `Reports.Tally` | js/main.js:971-982 | a key is present exactly when some item has it, its value is the number of items with it, and the values add up to the number of items |
| `Reports.AppointmentsBySpecialty` | js/main.js:971-982 | exactly the specialties present get a count, each count is the number of appointments in it, and the counts add up to the number of appointments |
| `Reports.AppointmentsByDoctor` | js/main.js:984-995 | exactly the doctors present get a count, each count is the number of their appointments, and the counts add up to the number of appointments |
| `Reports.InMonth` | js/main.js:955-958 | the `startsWith` test of `YYYY-MM`: the appointment's year and month are the given ones; characterised by `Reports.MonthAppointments` |
| `Reports.MonthAppointments` | js/main.js:957-959 | exactly the appointments dated in that year and month are kept, each once and in table order, so `totalAppointments` is their number |
| `Reports.GetMonthlyStats` | js/main.js:954-969 | the month's total, the three status counts and the two tallies are those of the month's appointments, and each tally adds up to the month's total |
| `Reports.StatusCountsPartition` | js/main.js:963-965 | the three status counts never exceed the total, and equal it when every status is one of the three |
| `Reports.MonthlyTallyCoversMonth` | js/main.js:966-967 | each appointment of the month shows up in both of the month's tallies |
| `Reports.AgeGroup` | js/main.js:1009-1013 | every age falls in one of the five groups |
| `Reports.AgeGroupBounds` | js/main.js:1009-1013 | the groups are exactly 0-18, 19-30, 31-50, 51-70 and 71 and over |
| `Reports.AgeGroupMonotone` | js/main.js:1009-1013 | an older patient never falls in a younger group |
| `Reports.DistributeStep` | js/main.js:1006-1014 | counting one more patient keeps each group's count equal to the patients seen in it |
| `Reports.PatientsAgeDistribution` | js/main.js:997-1017 | five counts, each the number of patients whose age falls in that group |
| `Reports.AgeDistributionCoversAll` | js/main.js:997-1017 | the five counts add up to the number of patients |
| `LooseIds.EqualityKinds` | js/main.js:464-471 | `===` is value identity, `==` is weaker, and the two differ only across number and string |
| `LooseIds.WrittenIdMatchesLoosely` | js/main.js:453-471 | the text of a counter value equals it under `==` and never under `===` |
| `LooseIds.EditedIdUnreachable` | js/main.js:453-500 | for any table of distinct numeric identifiers, after an edit the record's identifier is a string, so the `!==` delete filter keeps it and the `===` lookup cannot find it; the appointment table's edit and delete (js/main.js:648, 699) are the same case |
| `LooseIds.EditThenDeleteExample` | js/main.js:453-500 | patient 1, edited once, survives `deletePatient(1)` and cannot be chosen for an appointment |

## Left out

- The user interface is not modelled: the DOM, the modals, notifications,
  `confirm()` dialogs (a deletion is modelled as confirmed), table
  rendering, `formatDate`, login and logout, navigation, and CSV export.
  They only display or collect data.
- `validateEmail`, `getAppointmentComplianceRate` and `initializeTestData`
  are not modelled. They are outside the scheduling and reporting core, and
  the compliance rate is floating point.
- The clock (`new Date()`) is a parameter: `today`, plus the milliseconds
  past midnight for the week test. Time zones and the UTC conversion of
  `toISOString` are not modelled.
- The seed records are constructor parameters. Their contents are not part
  of this model.
- The in-place sort is not tied to the store. `renderAppointmentsTable` and
  `loadRecentAppointments` sort the appointment table itself, so after
  drawing, the store's order is newest first. `Store.RecordStore` keeps
  insertion order; the sort is modelled separately on an array.
- Sorting.SortKey: a time that does not read as a number is treated as
  midnight, and a time past the day (such as `24:30`) is added as minutes
  and runs into the next day. In the source both give an Invalid Date, so
  the comparator returns `NaN` and the order is then up to the engine.
- Calendar.ValidDate and the date order: dates are `(year, month, day)`
  records. A malformed date string is not modelled.
- Clock.TimeToMinutes: `Number(...)` is modelled on digit strings only (the
  empty string reads as 0). Signs, blanks, decimals and hexadecimal text,
  which `Number` also accepts, read as `NaN` here.
- Search.IncludesIgnoringCase: `toLowerCase` is modelled on ASCII letters
  only.
- Reports.InMonth: the `startsWith("YYYY-MM")` test is modelled as equality
  of year and month. On ISO dates with four-digit years these are the same.
- Reports.Tally: the result is a map. The key order of a JavaScript object,
  and keys such as `constructor` that an object inherits, are not modelled.
- Store.SubmitAppointmentStep: `parseInt` of the patient selector is an
  integer parameter. A selector that reads as `NaN` is an identifier no
  patient has, which the handler refuses in the same way.
- Store: identifiers are numbers throughout. The string identifier an edit
  stores, for a patient (js/main.js:453) and for an appointment
  (js/main.js:648) alike, is modelled separately in `LooseIds` (see
  Findings).
- Scheduling.GenerateTimeSlots: requires a positive `appointmentDuration`.
  The source's loop never ends otherwise. The appointment table is a
  parameter, `appointments`, instead of the global `appointmentsDB`.
- Scheduling.DayPlan: the duration is an integer, so a fractional
  `appointmentDuration` is excluded.
- Search.FilterAppointments: uses the intended week (today through seven
  days on), not the source's comparison with the current instant. The filter
  as written is `Search.FilterAppointmentsAsWritten`, and
  `Search.FilterAsWrittenDropsToday` states where the two differ.
- `isDoctorAvailable`, `validatePatientDailyLimit` and `validatePeruvianDNI`
  are modelled as functions. The handlers do not call them, as in the code.

## Findings

| source | as written | input that shows it | evidently intended | confidence | as-written member | corrected member |
|---|---|---|---|---|---|---|
| js/main.js:581-587 | the "this week" filter compares each appointment's midnight (`new Date(apt.date)`) with the current instant (`new Date()`) | any appointment dated today, viewed at any time after midnight | the week runs from today to seven days on, by calendar date, and so contains what the "today" choice shows | not executed | `Search.FilterAsWrittenDropsToday` | `Search.WeekCoversTodayAndTomorrow` |
| js/main.js:453-500 | an edit stores the hidden form field's string as the identifier (`form.patientId.value \|\| ++patientIdCounter`, then the spread; the appointment handler does the same at js/main.js:648); deletion compares with `!==` and the appointment form with `===` against a number | edit patient 1 once, then delete it (`deletePatient(1)` keeps it) or book an appointment for it ("Paciente no válido"); edit appointment 1 once, then delete it (`deleteAppointment(1)` keeps it, js/main.js:699) | an edited record keeps its numeric identifier | not executed | `LooseIds.EditedIdUnreachable` | `Store.EditedPatientDeletable` |

The appointment handler has the same identifier defect (js/main.js:648,
699). `LooseIds.EditedIdUnreachable` is stated for any table of
identifiers, so it covers the appointment table too: the edited
appointment's identifier survives the `!==` filter of `deleteAppointment`.
`Store.EditedPatientBookable` is the second half of the corrected
behaviour. `Search.FilterAppointments` uses the corrected week; the filter as
written is `Search.FilterAppointmentsAsWritten`, and
`Search.WeekAsWrittenMissesToday` shows the defect on a single date.
