# DocPlannerEntry slot management, modelled in Dafny

DocPlannerEntry fetches a facility's weekly schedule from an upstream slot
service and turns it into bookable slots. For each day it knows the working
hours, the lunch break and the slots already booked. It also checks and
forwards reservation requests. This project models the parts of it that
compute:

- **The slot grid** (`SlotManager`). `CalculateAvailableSlots` builds its list
  with two loops per day: one from StartHour to LunchStartHour and one from
  LunchEndHour to EndHour. The reference date moves on one day per schedule
  entry.
- **The available slots** (`SlotManager`, `Availability`). The candidate
  slots less the busy ones, under `SlotEqualityComparer`'s notion of
  equality (both bounds equal as instants) and its hash.
- **The week start** (`SlotManager`). The week start that
  `RetrieveAvailabilityAsync` works out for a requested date, and the
  `yyyyMMdd` date it puts in the availability URL. Both are modelled as
  written, from today's weekday, and as corrected, from the requested date's
  own weekday, which always gives that week's Monday (see "## Findings").
- **Reservation checks** (`TakeSlot`, `Reservation`). The `PatientValidator`
  rules with FluentValidation's NotEmpty and EmailAddress semantics. Then the
  ordered checks a reservation goes through, and the `(bool, string)` outcome
  once the upstream status is known.
- **The wire timestamp** (`DateTimeOffsetConverter`). `Write` renders a
  DateTimeOffset as `yyyy-MM-ddTHH:mm:ss` of its own wall clock. A parser
  for the same layout is proved to invert it.

Supporting modules:

- `DateTimes` models .NET's DateTime on tick counts of 100 ns. It covers the
  Gregorian calendar as `GetDatePart` computes it, the clock fields,
  `DayOfWeek`, `AddDays` and a DateTimeOffset as wall clock plus offset.
- `Formatting` holds zero-padded decimal fields.
- `Wrappers` holds `Option`.
- `AvailabilityFixture` restates the test suite's three-day availability
  scenario and proves its counts.

`CalculateAvailableSlots` is a method with the source's loops. The inner
`for` loop is the method `AppendRun`. Each method is proved equal to a
specification function (`Run`, `DaySlots`, `Grid`), and the lemmas state what
the source promises about those functions. Everything else in the core only
computes a value, so it is written as functions and lemmas.

Where the code and its surrounding description disagree, the model follows
the code. The week-start line treats Sunday as the first day of the week, as
the comment on `SlotManager.cs:83` says: a Sunday maps to the following
Monday. It does not count weeks from Monday, where a Sunday would map back to
the Monday six days before.

The tests call a reservation method
`TakeSlot(facilityId, start, end, comments, patient)` that returns
`(bool, string)`, and an availability method `GetAvailableSlots`. Neither
is defined in `SlotManager.cs`, whose only reservation method is
`TakeSlot(string)`. Their checks, order and messages are modelled on what
the tests pin down, and on the status branch of `TakeSlot(string)`.

## Model

| member | source | states |
|---|---|---|
| SlotManager.Run | DocPlannerEntry.SlotManagement.Service/SlotManager.cs:65-70 | what one inner `for` loop adds: a slot lasting one step for each appointment from the first on, a step apart, while the appointment is before the bound |
| SlotManager.DaySlots | DocPlannerEntry.SlotManagement.Service/SlotManager.cs:64-70 | one day's slots: the run from StartHour to LunchStartHour, then the run from LunchEndHour to EndHour, on that day |
| SlotManager.Grid | DocPlannerEntry.SlotManagement.Service/SlotManager.cs:57-72 | what the outer loop builds: each entry's day slots in order, the i-th on the reference date plus i days |
| SlotManager.AppendRun | DocPlannerEntry.SlotManagement.Service/SlotManager.cs:65-66 | one `for` loop appends, to the list it is given, exactly the run of slots from the first appointment, a step apart, while the start is before the bound |
| SlotManager.CalculateAvailableSlots | DocPlannerEntry.SlotManagement.Service/SlotManager.cs:53-76 | the list the loops build is the grid: morning run then afternoon run for each entry in order, the i-th entry at the reference date plus i days; it needs a positive duration and a work period on every entry |
| SlotManager.RunCount | DocPlannerEntry.SlotManagement.Service/SlotManager.cs:65-70 | a run holds no slot when it starts at or after its bound; otherwise the last start is before the bound and one more step would reach it, i.e. ceil(span / step) slots |
| SlotManager.RunCountCeil | DocPlannerEntry.SlotManagement.Service/SlotManager.cs:65-70 | the same count as the ceiling division (span + step - 1) / step |
| SlotManager.RunAt | DocPlannerEntry.SlotManagement.Service/SlotManager.cs:65-66 | the k-th slot of a run starts k steps after the first appointment, before the bound, and ends one step after its start |
| SlotManager.RunContains | DocPlannerEntry.SlotManagement.Service/SlotManager.cs:65-66 | every appointment a whole number of steps after the first and before the bound is in the run |
| SlotManager.RunElements | DocPlannerEntry.SlotManagement.Service/SlotManager.cs:65-70 | every slot of a run starts in [first, bound), ends one step after its start (so the last may end past the bound), and carries the conversion offset |
| SlotManager.RunIncreasing | DocPlannerEntry.SlotManagement.Service/SlotManager.cs:65-70 | starts strictly increase within a run |
| SlotManager.DayElements | DocPlannerEntry.SlotManagement.Service/SlotManager.cs:64-70 | every slot of a day lasts the duration and starts in [StartHour, LunchStartHour) or [LunchEndHour, EndHour) of that day, so none starts inside the lunch break |
| SlotManager.DayIncreasing | DocPlannerEntry.SlotManagement.Service/SlotManager.cs:64-70 | with lunch not ending before it starts, a day's starts strictly increase, morning before afternoon |
| SlotManager.StandardDayCount | DocPlannerEntry.SlotManagement.Service/SlotManager.cs:65-70 | hours 9 to 13 and 14 to 17 at 10 minutes give 24 + 18 = 42 slots |
| SlotManager.GridAppend | DocPlannerEntry.SlotManagement.Service/SlotManager.cs:59-72 | entries are placed by position: the grid of a + b is a's grid followed by b's grid computed as many days later as a has entries |
| SlotManager.GridIgnoresKeys | DocPlannerEntry.SlotManagement.Service/SlotManager.cs:59 | the weekday keys are never consulted: schedules with the same days in the same order give the same grid |
| SlotManager.GridElements | DocPlannerEntry.SlotManagement.Service/SlotManager.cs:59-72 | with hours within the day, every grid slot lasts the duration, carries the offset and starts within as many days of the reference date as there are entries |
| SlotManager.GridIncreasing | DocPlannerEntry.SlotManagement.Service/SlotManager.cs:57-72 | with ordered hours the grid's starts strictly increase: entry by entry, morning before afternoon |
| SlotManager.GridDistinct | DocPlannerEntry.SlotManagement.Model/Availability/Slot.cs:17-23 | with ordered hours no two grid slots are equal under the comparer |
| SlotManager.BusySlots | DocPlannerEntry.Tests/SlotManagerTests.cs:234-308 | the busy slots the response carries: the entries' busy lists concatenated in entry order, an entry without one adding nothing |
| SlotManager.AvailableSlots | DocPlannerEntry.Tests/SlotManagerTests.cs:216-359 | the availability query: nothing when the fetch fails; otherwise `Enumerable.Except` with the comparer of the grid and the entries' busy lists concatenated in order |
| SlotManager.AvailableSlotsSpec | DocPlannerEntry.Tests/SlotManagerTests.cs:216-359 | a failed fetch gives no slots; otherwise every available slot is a grid slot no busy slot equals, no two are equal, and every such grid slot is represented |
| SlotManager.DayOfWeekShift | DocPlannerEntry.SlotManagement.Service/SlotManager.cs:84 | moving a date by whole days moves its weekday by as many days, modulo 7, and keeps its time of day |
| SlotManager.MondayDateAsWritten | DocPlannerEntry.SlotManagement.Service/SlotManager.cs:84 | line 84 as written: the target date moved by Monday minus today's weekday, none where `AddDays` would throw |
| SlotManager.MondayDate | DocPlannerEntry.SlotManagement.Service/SlotManager.cs:83-84 | the corrected week start: the target date moved by Monday minus its own weekday, none where `AddDays` would throw |
| SlotManager.MondayShiftRange | DocPlannerEntry.SlotManagement.Service/SlotManager.cs:84 | the week start, as written and as corrected, is between five days before and one day after the target date |
| SlotManager.MondayDateIsMonday | DocPlannerEntry.SlotManagement.Service/SlotManager.cs:83-84 | the corrected week start is a Monday at the target's time of day, with Sunday counted as the first day of the week |
| SlotManager.MondayAsWrittenAgreesIff | DocPlannerEntry.SlotManagement.Service/SlotManager.cs:84 | where both are defined, the line as written gives the corrected Monday exactly when today falls on the target's weekday |
| SlotManager.MondayDateAsWrittenMissesMonday | DocPlannerEntry.SlotManagement.Service/SlotManager.cs:84 | requested for Tuesday 18 June 2024 on a Wednesday, the line as written gives Sunday 16 June; the corrected one gives Monday 17 June |
| SlotManager.UrlDate | DocPlannerEntry.SlotManagement.Service/SlotManager.cs:91 | `ToString("yyyyMMdd")` is eight decimal digits |
| SlotManager.UrlDateReadsBack | DocPlannerEntry.SlotManagement.Service/SlotManager.cs:91 | the eight digits read as year, month and day give back the date of the ticks |
| SlotManager.WeekUrlDateAsWritten | DocPlannerEntry.SlotManagement.Service/SlotManager.cs:84-91 | the URL date as written exists exactly when line 84's shift stays in the calendar; it is then eight digits that read back as the date of that shifted day, and it equals the corrected URL date whenever today has the requested date's weekday |
| SlotManager.WeekUrlDateAsWrittenNamesSunday | DocPlannerEntry.SlotManagement.Service/SlotManager.cs:84-91 | requested for Tuesday 18 June 2024 on Wednesday 19 June, the URL as written carries 16 June 2024, a Sunday; the corrected one carries 17 June |
| SlotManager.CalendarAnchors | DocPlannerEntry.SlotManagement.Service/SlotManager.cs:84 | the tick constants of the counterexample, and the days two and one before the first, are the midnights of 18, 19, 16 and 17 June 2024 |
| SlotManager.WeekUrlDate | DocPlannerEntry.SlotManagement.Service/SlotManager.cs:83-91 | with the week start corrected, the URL date exists exactly when the corrected week start does, and is then eight digits |
| SlotManager.WeekUrlDateIsMonday | DocPlannerEntry.SlotManagement.Service/SlotManager.cs:83-91 | with the week start corrected, the URL date names a Monday between five days before and one day after the requested date (line 84 as written does not promise this) |
| Availability.SlotEquals | DocPlannerEntry.SlotManagement.Model/Availability/Slot.cs:17-23 | two slots are equal when their starts are the same instant and their ends are the same instant |
| Availability.SlotEqualsIsEquivalence | DocPlannerEntry.SlotManagement.Model/Availability/Slot.cs:17-23 | slot equality is reflexive, symmetric and transitive |
| Availability.SlotEqualsSameOffset | DocPlannerEntry.SlotManagement.Model/Availability/Slot.cs:19-20 | for bounds with the same offsets, comparer equality is equality of both wall clocks |
| Availability.SlotHash | DocPlannerEntry.SlotManagement.Model/Availability/Slot.cs:25-35 | a null slot hashes to 0 |
| Availability.SlotHashConsistent | DocPlannerEntry.SlotManagement.Model/Availability/Slot.cs:19-33 | slots the comparer calls equal have equal hashes |
| Availability.SlotHashIgnoresEnd | DocPlannerEntry.SlotManagement.Model/Availability/Slot.cs:19-33 | slots with the same start instant hash alike, yet are equal only when their ends are the same instant |
| Availability.Except | DocPlannerEntry.Tests/SlotManagerTests.cs:272-326 | `Enumerable.Except` with the comparer: each candidate in order is yielded unless it equals a busy slot or a slot already yielded |
| Availability.ExceptSound | DocPlannerEntry.Tests/SlotManagerTests.cs:272-326 | every slot the exclusion yields is a candidate that no busy slot equals, and no two yielded slots are equal |
| Availability.ExceptComplete | DocPlannerEntry.Tests/SlotManagerTests.cs:272-326 | every candidate no busy slot equals is represented in the result |
| Availability.ExceptRespectsMatching | DocPlannerEntry.SlotManagement.Model/Availability/Slot.cs:17-23 | the exclusion depends only on which slots the busy list matches |
| Availability.ExceptIgnoresDuplicates | DocPlannerEntry.Tests/SlotManagerTests.cs:272-302 | a busy slot listed twice removes nothing more than listed once |
| Availability.ExceptOfDistinct | DocPlannerEntry.SlotManagement.Model/Availability/Slot.cs:17-23 | from candidates with no two equal, the exclusion is the plain filter, in the candidates' order |
| Availability.WithoutCount | DocPlannerEntry.SlotManagement.Model/Availability/Slot.cs:17-23 | from candidates with no two equal, the filter leaves the candidates less the set of matched ones |
| AvailabilityFixture.CandidateCount | DocPlannerEntry.Tests/SlotManagerTests.cs:234-308 | the three-entry fixture at 10 minutes gives 3 x 42 = 126 candidates |
| AvailabilityFixture.MatchedExactly | DocPlannerEntry.Tests/SlotManagerTests.cs:234-308 | from the reference date 18 June 2024 the busy slots equal exactly four grid slots, the distinct Wednesday bookings that fall on the grid's second day |
| AvailabilityFixture.AvailableCount | DocPlannerEntry.Tests/SlotManagerTests.cs:216-326 | the fixture leaves 122 available slots |
| TakeSlot.IndexOf | DocPlannerEntry.SlotManagement.Model/TakeSlot/Patient.cs:28 | the position of the first occurrence of a character, or -1 exactly when it is absent |
| TakeSlot.LastIndexOf | DocPlannerEntry.SlotManagement.Model/TakeSlot/Patient.cs:28 | the position of the last occurrence of a character, or -1 exactly when it is absent |
| TakeSlot.EmailAddress | DocPlannerEntry.SlotManagement.Model/TakeSlot/Patient.cs:28 | FluentValidation's default email check: null passes; otherwise the first '@' is neither the first nor the last character and is also the last '@' |
| TakeSlot.EmailAddressIff | DocPlannerEntry.SlotManagement.Model/TakeSlot/Patient.cs:28 | a non-null address passes EmailAddress exactly when it has one '@', neither first nor last |
| TakeSlot.NotEmpty | DocPlannerEntry.SlotManagement.Model/TakeSlot/Patient.cs:26-29 | FluentValidation's `NotEmpty()` on a string: not null and holding at least one character that is not white space |
| TakeSlot.NotEmptyRule | DocPlannerEntry.SlotManagement.Model/TakeSlot/Patient.cs:26-29 | a NotEmpty rule reports nothing exactly when the value is not null and not only white space, and reports only under its own property |
| TakeSlot.EmailRule | DocPlannerEntry.SlotManagement.Model/TakeSlot/Patient.cs:28 | the Email rule reports nothing exactly when the value is non-empty and a valid address, and reports only under Email |
| TakeSlot.Validate | DocPlannerEntry.SlotManagement.Model/TakeSlot/Patient.cs:22-31 | the four rules' failures in declaration order: Name, SecondName, Email, Phone |
| TakeSlot.IsValidIff | DocPlannerEntry.SlotManagement.Model/TakeSlot/Patient.cs:22-31 | a patient is valid exactly when Name, SecondName and Phone are non-empty and Email is non-empty and a valid address |
| TakeSlot.FailuresAreLocal | DocPlannerEntry.SlotManagement.Model/TakeSlot/Patient.cs:26-29 | the failures reported for a property are exactly those of its own rule on its own field |
| TakeSlot.TestEmailValid | DocPlannerEntry.Tests/SlotManagerTests.cs:66 | "john.connor@gmail.com" passes EmailAddress |
| TakeSlot.EmptyNameAlone | DocPlannerEntry.SlotManagement.Model/TakeSlot/Patient.cs:26-29 | for every patient whose Name is null or blank and whose other fields are valid, validation gives exactly one failure, "'Name' must not be empty." |
| TakeSlot.EmptyNameFailure | DocPlannerEntry.Tests/SlotManagerTests.cs:151-165 | the tests' patient with an empty Name gives exactly one failure, "'Name' must not be empty." |
| TakeSlot.TestPatientValid | DocPlannerEntry.Tests/SlotManagerTests.cs:62-68 | the tests' patient John Connor is valid |
| Reservation.IsSuccessStatusCode | DocPlannerEntry.SlotManagement.Service/SlotManager.cs:44 | `IsSuccessStatusCode`: the status code is in 200..299 |
| Reservation.JoinMessages | DocPlannerEntry.SlotManagement.Model/TakeSlot/Patient.cs:26-29 | the validation failures' messages in order, separated by ", " (the separator is the model's choice) |
| Reservation.Precheck | DocPlannerEntry.Tests/SlotManagerTests.cs:80-165 | the checks before the request is sent, first failure wins: start after end as instants, then no patient, then the joined validation messages |
| Reservation.Reserve | DocPlannerEntry.SlotManagement.Service/SlotManager.cs:44-50 | the `(bool, string)` outcome: a failed check's message, otherwise false naming the status on a non-2xx answer and true with the success message on a 2xx one |
| Reservation.PrecheckPassesIff | DocPlannerEntry.Tests/SlotManagerTests.cs:80-165 | a request passes the checks exactly when its start is not after its end, it has a patient and the patient is valid |
| Reservation.ReserveSucceedsIff | DocPlannerEntry.SlotManagement.Service/SlotManager.cs:44-50 | a reservation succeeds exactly when the checks pass and the upstream status is 2xx, and then the message is "Slot has been reserved successfully" |
| Reservation.PrecheckFailureIgnoresUpstream | DocPlannerEntry.Tests/SlotManagerTests.cs:80-165 | when a check fails, any upstream answer gives the same outcome: false with that check's message |
| Reservation.StartAfterEndWins | DocPlannerEntry.Tests/SlotManagerTests.cs:80-108 | a start after the end is reported first, whatever the patient and the upstream |
| Reservation.JoinMessagesAppend | DocPlannerEntry.SlotManagement.Model/TakeSlot/Patient.cs:26-29 | several validation messages are joined in order, separated by ", " |
| Reservation.ValidRequestOutcomes | DocPlannerEntry.Tests/SlotManagerTests.cs:34-212 | the valid ten-minute request is reserved on OK and gives "Slot reservation API returned BadRequest" on BadRequest |
| Reservation.RejectedRequestOutcomes | DocPlannerEntry.Tests/SlotManagerTests.cs:80-134 | a start ten minutes after the end gives "Slot has to start before ending"; no patient gives "Patient data cannot be empty" |
| Reservation.EmptyNameOutcome | DocPlannerEntry.Tests/SlotManagerTests.cs:137-165 | the empty-name request is rejected with "'Name' must not be empty." |
| DateTimeOffsetConverter.Format | DocPlannerEntry.Shared/DateTimeOffsetConverter.cs:17 | the layout `yyyy-MM-ddTHH:mm:ss` applied to clock fields, each zero-padded to its width |
| DateTimeOffsetConverter.Write | DocPlannerEntry.Shared/DateTimeOffsetConverter.cs:15-18 | the output is 19 characters, with '-', '-', 'T', ':', ':' at positions 4, 7, 10, 13, 16 and digits elsewhere; it is the layout applied to the value's own wall-clock fields |
| DateTimeOffsetConverter.Parse | DocPlannerEntry.Shared/DateTimeOffsetConverter.cs:17 | every accepted text names valid fields with millisecond 0 |
| DateTimeOffsetConverter.ParseFormat | DocPlannerEntry.Shared/DateTimeOffsetConverter.cs:17 | parsing the rendered fields recovers year, month, day, hour, minute and second |
| DateTimeOffsetConverter.FormatParse | DocPlannerEntry.Shared/DateTimeOffsetConverter.cs:17 | every text the parser accepts is exactly the rendering of what it parsed to |
| DateTimeOffsetConverter.ParseWrite | DocPlannerEntry.Shared/DateTimeOffsetConverter.cs:15-18 | parsing what Write produced gives the value's wall-clock fields, whatever its offset |
| DateTimeOffsetConverter.SameSecondSameFields | DocPlannerEntry.Shared/DateTimeOffsetConverter.cs:17 | clocks that agree to the whole second have the same fields except the millisecond |
| DateTimeOffsetConverter.WriteSameIff | DocPlannerEntry.Shared/DateTimeOffsetConverter.cs:15-18 | two values are written alike exactly when their wall clocks agree to the whole second: offset and fraction are dropped |
| DateTimeOffsetConverter.SameInstantOtherOffset | DocPlannerEntry.Shared/DateTimeOffsetConverter.cs:17 | the same instant at two different offsets is written as two different texts |
| DateTimes.AddDays | DocPlannerEntry.SlotManagement.Service/SlotManager.cs:84 | `DateTime.AddDays` by whole days, defined only inside the DateTime range: none where .NET throws |
| DateTimes.DateOf | DocPlannerEntry.Shared/DateTimeOffsetConverter.cs:17 | the calendar date of a day number is valid and inverts the day numbering |
| DateTimes.DateOfInMonth | DocPlannerEntry.Shared/DateTimeOffsetConverter.cs:17 | the date of a day number lies in the month whose days hold its day of the year, numbered from 1 within that month |
| DateTimes.FieldsOf | DocPlannerEntry.Shared/DateTimeOffsetConverter.cs:17 | year 1 to 9999, month 1 to 12, a day within the month, a 24-hour clock, minute and second below 60 |
| DateTimes.FieldsRecompose | DocPlannerEntry.Shared/DateTimeOffsetConverter.cs:17 | the fields add back up to the ticks, less what lies below a millisecond |
| DateTimes.DayOfWeek | DocPlannerEntry.SlotManagement.Service/SlotManager.cs:84 | the weekday is in 0..6 |
| Formatting.PadRoundTrip | DocPlannerEntry.Shared/DateTimeOffsetConverter.cs:17 | a zero-padded field reads back as the number written |
| Formatting.DigitsRoundTrip | DocPlannerEntry.Shared/DateTimeOffsetConverter.cs:17 | every digit string is the padded rendering of its value |

## Left out

- HTTP, authentication and URL assembly (`SlotManager.cs:27-42`, `86-98`) are not modelled. The upstream answer is a parameter: an `HttpStatus` for reservations, an `Option<Schedule>` for the availability fetch.
- JSON deserialisation is not modelled, including the extension-data catch-all and its re-parse (`SlotManager.cs:99-102`). The schedule is given directly as the dictionary's values in enumeration order, each with its key. .NET documents that order as unspecified; the model takes the order the current runtime gives a `Dictionary` that nothing is removed from, which is insertion order.
- `DayInfo` is modelled as an optional work period plus an optional busy list.
- Availability.SlotEquals: takes two slots, so the NullReferenceException that `SlotEqualityComparer.Equals` throws when either argument is null (`Slot.cs:19`) is not modelled; its hash does model a null slot.
- `DateTimeOffsetConverter.Read` (`DateTime.Parse` plus the local time zone) is not modelled, because it depends on code and an environment outside the repository. The fixture's busy slots are written with offset zero, as if they had been read at offset zero.
- `DateTime.Now` and `DateTime.Today` are parameters. `async`/`Task` are dropped, because every step is sequential.
- The implicit DateTime to DateTimeOffset conversion in the grid attaches the machine's local offset to a DateTime whose Kind is not Utc (a Utc one gets offset zero). It is one fixed `offset` parameter, so daylight-saving changes within the week are not modelled.
- SlotManager.CalculateAvailableSlots: does not model the ArgumentOutOfRangeException that `AddHours`, `AddMinutes` and `AddDays` throw outside the DateTime range, nor the exception the implicit DateTimeOffset conversion throws when the UTC instant falls outside it. The grid uses unbounded tick arithmetic. It ends by returning its list, where `SlotManager.cs` throws `NotImplementedException` after building it (line 75).
- The discarded call with hard-coded arguments at `SlotManager.cs:104` is not modelled. The grid's reference date, duration and offset are explicit parameters instead.
- `GetAvailableSlots` is not in `SlotManager.cs`; `SlotManager.AvailableSlots` models it as `Enumerable.Except` with the comparer, applied to the grid and the concatenated busy lists. Which reference date it passes to the grid is not known; the fixture uses midnight of the requested date, 18 June 2024, the date at which the test's expected 122 comes out.
- DateTimeOffsetConverter.Write, SlotManager.UrlDate: `ToString` is called without a format provider, so .NET formats with the current culture's calendar. The model assumes a current culture that uses the Gregorian calendar. Under a culture such as th-TH, whose calendar is Thai Buddhist, the year would be written differently (2567 for 2024).
- The availability URL template (`String.Format(_settings.AvailabilityUrl, date)`) is configuration. Only the `yyyyMMdd` date that fills it is modelled.
- Reservation.JoinMessages: the text for several validation failures at once is not pinned by `Patient.cs` or the tests. The model joins the messages with ", ".
- FluentValidation's other email modes and its message localisation are not modelled. The default EmailAddress check and the English default messages are.
- The controller, the UI and the configuration and data-holder classes are not part of this model.

## Findings

| source | as written | input that shows it | evidently intended | confidence | as-written member | corrected member |
|---|---|---|---|---|---|---|
| DocPlannerEntry.SlotManagement.Service/SlotManager.cs:84 | the target date is moved by Monday minus the weekday of `DateTime.Today` | target Tuesday 18 June 2024, today Wednesday 19 June 2024: the result is Sunday 16 June 2024 | the target date moved by Monday minus the target's own weekday, which always lands on the Monday of the target's week | medium, not executed | SlotManager.MondayDateAsWritten, SlotManager.MondayDateAsWrittenMissesMonday, SlotManager.WeekUrlDateAsWritten, SlotManager.WeekUrlDateAsWrittenNamesSunday | SlotManager.MondayDate, SlotManager.MondayDateIsMonday, SlotManager.WeekUrlDate, SlotManager.WeekUrlDateIsMonday |
