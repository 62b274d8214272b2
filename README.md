# Salon booking: availability engine and booking gate

This project models the decision logic of a salon-management web app:

- **The availability resolver** (`getAvailableTimes`). Given a
  professional and a calendar day, it returns the day's candidate time
  slots inside the professional's working window. Each slot is flagged
  free or taken.
- **The booking gate** (`addAgendamento`). It validates a booking request
  and checks the session. It then re-runs the resolver, accepts only a
  returned slot that is exactly the requested time and free, composes the
  appointment timestamp and appends one appointment row.
- **The two input schemas.** The booking form (`addAgendamentoSchema`) and
  the professional form (`upsertProfissionalSchema`), with the latter's
  refinement that the start time must come before the end time.

Modules:

- `Clock` (`clock.dfy`). Times of day as zero-padded `HH:MM:SS` strings,
  JavaScript's string order (`LexLe`, `LexLt`) and dayjs' `HH:mm:ss`
  formatting. Its main theorem is that, on such strings, string order is
  the numeric order of the times.
- `Tables` (`tables.dfy`). Professional and appointment rows, timestamps
  and the session. A timestamp is a local calendar day, counted from
  Thursday 1970-01-01, plus a second of that day.
- `Availability` (`availability.dfy`). The resolver as pure functions,
  with its properties.
- `AgendamentoSchema` (`agendamento_schema.dfy`) and `ProfissionalSchema`
  (`profissional_schema.dfy`). Each validator returns the list of fields
  with issues, in declaration order; an empty list means the input is
  accepted. `ProfissionalSchema` also models JavaScript's `trim()`.
- `Booking` (`booking.dfy`). The gate's decision as a function, `Decide`.
  The appointment table is a class, `AppointmentTable`, whose method
  `AddAgendamento` appends the row. The module also holds the gate's
  properties, including the round trip "book, then ask again".
- `Wrappers` (`wrappers.dfy`). `Option` and `Result`.

What the code reads from outside is passed in as parameters:

- the session;
- the professionals and appointments tables;
- the slot generator's output;
- the server's UTC offset in minutes;
- the new row's id and the current time;
- the uuid and e-mail format tests.

Some details of the code that the model keeps:

- **Weekday gate.** The weekday test is inclusive and not modular. A range
  with from > to never matches.
- **Window bounds.** The bounds are built on a UTC clock and read back on
  the local clock, but the slots are not. The window is therefore shifted
  by the server's UTC offset: bound minute = `(h*60 + m + offset) mod 1440`.
  The seconds of both bounds and slots are set to 0 before comparing.
- **Non-working days.** When the professional does not work that day, the
  resolver answers `[]`. That is data, so the gate rejects with "Time not
  available" rather than "No available times".
- **Composed timestamp.** It keeps the request date's day and seconds and
  takes hour and minute from the `time` string.
- **Validation order.** The professional schema's time refinement is
  reported even when field checks fail, after the field issues.

## Behaviour worth noting

- **Professional lookup by id alone.** Neither the resolver nor the gate
  checks that the professional belongs to the caller's salon.
  `FindProfessional` returns the first row with the id, of any salon.
- **Cancelled appointments keep their slot.** The resolver never reads an
  appointment's status (`StatusNeverConsulted`). A cancelled appointment
  still flags its slot taken, and the gate rejects a new booking of it.
- **Window shifted by the UTC offset.** The window bounds are shifted by
  the server's UTC offset and the slots are not
  (`KeptIffInShiftedWindow`). Only at offset 0 is the window the stored
  `from`..`to` range (`KeptIffInWindowWithoutOffset`).
- **The requested time must be a whole slot value.** The gate compares the
  requested time with the slot values, `HH:MM:SS`, by string equality. An
  `HH:MM` time is therefore never accepted (`AcceptedIff`,
  `NotFreeSlotIsTimeNotAvailable`).
- **No guard against concurrent bookings.** The availability check and the
  insert are separate steps, and nothing stops two requests for one slot
  from both passing the check (see "Left out").

## Model

| member | source | states |
|---|---|---|
| `Clock.LexLe` | src/actions/get-available-times/index.ts:78-81 | JavaScript's `<=` on strings holds exactly when the first string is a prefix of the second or, at the first position where they differ, its character is the smaller |
| `Clock.LexLt` | src/actions/upsert-profissional/schema.ts:27 | JavaScript's `<` on strings holds exactly when `b <= a` fails |
| `Clock.FormatTime` | src/actions/get-available-times/index.ts:56 | formatting a second of the day as `HH:mm:ss` gives a well-formed time string that denotes exactly that second |
| `Clock.FormatSecondsOf` | src/actions/get-available-times/index.ts:56 | parsing a well-formed `HH:MM:SS` string and formatting it again gives the same string |
| `Clock.FormatTimeOrder` | src/actions/get-available-times/index.ts:78-81 | formatted times compare as strings exactly as the seconds compare as numbers |
| `Clock.LexOrderIsTimeOrder` | src/actions/get-available-times/index.ts:78-81 | on zero-padded `HH:MM:SS` strings, JavaScript's `<=` and `<` are the numeric order of the times |
| `Availability.WorksOn` | src/actions/get-available-times/index.ts:43-45 | only a weekday range with from <= to admits any weekday |
| `Availability.BoundMinute` | src/actions/get-available-times/index.ts:59-70 | a bound's minute of the day is its stored hour and minute plus the UTC offset, round the day; at offset 0 it is the stored hour and minute |
| `Availability.InWindow` | src/actions/get-available-times/index.ts:71-83 | the window's string test holds exactly when the slot's minute lies between the shifted bounds' minutes, inclusive |
| `Availability.Label` | src/actions/get-available-times/index.ts:88 | the label is a prefix of the value of at most five characters, exactly five when the value has five or more |
| `Availability.Annotate` | src/actions/get-available-times/index.ts:84-90 | one entry per kept slot, in order; an entry is free exactly when no occupied time equals its value |
| `Availability.OccupiedTimes` | src/actions/get-available-times/index.ts:49-56 | a time is occupied exactly when some appointment of the professional on that calendar day formats to it |
| `Availability.WindowSlots` | src/actions/get-available-times/index.ts:71-83 | the kept slots are a subsequence of the generated ones; a slot is kept exactly when it is generated and passes the window test |
| `Availability.Resolve` | src/actions/get-available-times/index.ts:42-90 | every answer value is a generated slot |
| `Availability.FirstWithId` | src/actions/get-available-times/index.ts:36-38 | the position found is the first with the id, or the end of the table when no row has it |
| `Availability.FindProfessional` | src/actions/get-available-times/index.ts:36-41 | not found exactly when no professional has the id; otherwise the first professional with that id, of any salon |
| `Availability.GetAvailableTimes` | src/actions/get-available-times/index.ts:26-90 | no session gives Unauthorized; no salon gives SalonNotFound; with a salon, ProfessionalNotFound exactly when no professional has the id; a success is the resolver's answer for the first professional with the id, and its values are generated slots |
| `Availability.NonWorkingDayIsEmpty` | src/actions/get-available-times/index.ts:42-48 | outside the inclusive weekday range the answer is empty |
| `Availability.WrappedWeekRangeNeverWorks` | src/actions/get-available-times/index.ts:42-48 | with from weekday > to weekday, every day yields an empty answer |
| `Availability.ResolvedSlotsAreOrderedSubsequence` | src/actions/get-available-times/index.ts:71-90 | the answer's values are the generated slots with some left out, in the same order; strictly increasing slots give a strictly increasing answer |
| `Availability.KeptIffInShiftedWindow` | src/actions/get-available-times/index.ts:42-83 | a slot is answered exactly when the day is a working day, the slot is generated, and its hour and minute lie between the offset-shifted bounds, inclusive |
| `Availability.KeptIffInWindowWithoutOffset` | src/actions/get-available-times/index.ts:59-83 | with a zero offset, a generated slot on whole minutes is answered exactly when `from(HH:MM:00) <= slot <= to(HH:MM:00)` in string order on a working day; the bounds' seconds play no part |
| `Availability.EntriesCarrySlotAndLabel` | src/actions/get-available-times/index.ts:84-90 | every entry's label is the first five characters of its value, `HH:MM` |
| `Availability.TakenIffBooked` | src/actions/get-available-times/index.ts:52-87 | an entry is taken exactly when some appointment of the professional on that day formats to its value; status is not consulted |
| `Availability.BookingsOnlyFlag` | src/actions/get-available-times/index.ts:84-90 | the answered slots do not depend on the appointments: occupied slots are flagged, never removed |
| `Availability.OnlyOwnSameDayBookingsMatter` | src/actions/get-available-times/index.ts:49-56 | two tables with the same appointments of this professional on this day give the same answer |
| `Availability.ForeignBookingIgnored` | src/actions/get-available-times/index.ts:49-56 | an appointment of another professional, or on another day, changes nothing |
| `Availability.StatusNeverConsulted` | src/actions/get-available-times/index.ts:52-56 | changing appointment statuses (e.g. cancelling) changes nothing |
| `Availability.NewBookingFlagsItsSlot` | src/actions/get-available-times/index.ts:52-90 | one more appointment of the professional on the day keeps the answer's length and values and flags exactly its formatted time taken |
| `AgendamentoSchema.Issues` | src/actions/add-agendamentos/schema.ts:3-20 | a field is reported exactly when its constraint fails |
| `AgendamentoSchema.AcceptedIff` | src/actions/add-agendamentos/schema.ts:3-20 | accepted exactly when both ids pass the uuid test, the date is present, the time is non-empty, the price is at least 1, and the status is absent or exactly `confirmado` or `cancelado` |
| `AgendamentoSchema.TimeFormatNotChecked` | src/actions/add-agendamentos/schema.ts:13-15 | any non-empty time string passes; its format is not checked |
| `AgendamentoSchema.StoredStatus` | src/actions/add-agendamentos/index.ts:53 | no status stores `confirmado`; a given status is stored as given |
| `ProfissionalSchema.TrimStart` | src/actions/upsert-profissional/schema.ts:6 | the result is a suffix of the input; what was removed is all white space and the result does not start with white space |
| `ProfissionalSchema.TrimEnd` | src/actions/upsert-profissional/schema.ts:6 | the result is a prefix of the input; what was removed is all white space and the result does not end with white space |
| `ProfissionalSchema.Trim` | src/actions/upsert-profissional/schema.ts:6 | the result is no longer than the input, neither starts nor ends with white space, and is empty exactly when the input is all white space |
| `ProfissionalSchema.Issues` | src/actions/upsert-profissional/schema.ts:3-34 | a field other than `availableToTime` is reported exactly when its constraint fails; `availableToTime` is reported exactly when it is empty or the start time is not before the end time; the refinement's issue comes last |
| `ProfissionalSchema.AcceptedIff` | src/actions/upsert-profissional/schema.ts:3-34 | accepted exactly when the id, if given, is a uuid; name, phone and speciality keep a character once trimmed; the e-mail passes; the price is at least 1; both weekdays lie in 0..6; both times are non-empty; and `availableFromTime < availableToTime` in string order |
| `ProfissionalSchema.EqualTimesRejected` | src/actions/upsert-profissional/schema.ts:25-33 | equal start and end times are rejected, with the last issue on `availableToTime` |
| `ProfissionalSchema.WeekDayOrderNotChecked` | src/actions/upsert-profissional/schema.ts:16-28 | an accepted form stays accepted with any two weekdays in 0..6 as its range, a start after the end included |
| `ProfissionalSchema.RefinementIsTimeOrder` | src/actions/upsert-profissional/schema.ts:25-28 | on well-formed `HH:MM:SS` times the refinement fails exactly when the end time is not later than the start time |
| `Booking.IsTimeAvailable` | src/actions/add-agendamentos/index.ts:34-36 | holds exactly when some entry of the answer carries the requested value and is free |
| `Booking.ComposeDateTime` | src/actions/add-agendamentos/index.ts:40-43 | the timestamp keeps the date's day and seconds; its hour and minute are the time's; it formats back to the time exactly when the time's seconds equal the date's |
| `Booking.NewRow` | src/actions/add-agendamentos/index.ts:45-56 | the row is an appointment of the requested professional on the requested day, with the new id, the salon and the time string, status `confirmado` when none is given; it formats back to the time exactly when the time's seconds equal the date's |
| `Booking.Decide` | src/actions/add-agendamentos/index.ts:17-44 | the request is rejected as invalid exactly when the schema reports issues, and then with a non-empty issue list; an accepted request has a session with a salon id and a date, its time is a generated slot, and its row occupies the requested professional and day |
| `Booking.AppointmentTable.AddAgendamento` | src/actions/add-agendamentos/index.ts:17-56 | an accepted request appends exactly the decided row and reports success; a rejection reports the decided error and leaves the table unchanged |
| `Booking.SessionChecksFirst` | src/actions/add-agendamentos/index.ts:21-26 | for a valid request, a missing session gives Unauthorized and a missing or empty salon id gives SalonNotFound, whatever the tables hold |
| `Booking.UnknownProfessionalHasNoTimes` | src/actions/add-agendamentos/index.ts:27-33 | an unknown professional makes the availability call fail, so the booking is rejected with NoAvailableTimes |
| `Booking.NonWorkingDayIsTimeNotAvailable` | src/actions/add-agendamentos/index.ts:31-39 | on a day the professional does not work, the booking is rejected with TimeNotAvailable |
| `Booking.NotFreeSlotIsTimeNotAvailable` | src/actions/add-agendamentos/index.ts:34-39 | a valid request from a session with a salon id, for a professional who is found, is rejected with TimeNotAvailable when the time is not a free generated slot of the shifted window on a working day |
| `Booking.AvailableIffFreeInWindow` | src/actions/add-agendamentos/index.ts:34-36 | the `some` test holds exactly when the day is a working day, the time is a generated slot in the shifted window, and no appointment of the professional that day formats to it |
| `Booking.AcceptedIff` | src/actions/add-agendamentos/index.ts:17-39 | accepted exactly when the request is valid, the session has a salon id, the professional is found, and the requested time is a free generated slot in its shifted window on a working day |
| `Booking.AcceptedTimeWasFree` | src/actions/add-agendamentos/index.ts:27-39 | an accepted booking's time was available in the answer for that professional and day |
| `Booking.AcceptedRow` | src/actions/add-agendamentos/index.ts:40-56 | the appended row carries the new id, the request's client, professional, price and time, the session's salon, the given status or `confirmado`, the composed timestamp and `now` as creation and update time |
| `Booking.AppendedRowFlagsItsTime` | src/actions/add-agendamentos/index.ts:45-56 | after appending a row, the answer for its professional and day keeps its slots and flags exactly the row's formatted time taken |
| `Booking.BookingTakesItsSlot` | src/actions/add-agendamentos/index.ts:40-56 | after an accepted booking, asking again for that professional and day finds the time no longer available, unless its seconds differ from the date's |
| `Booking.RepeatedBookingRejected` | src/actions/add-agendamentos/index.ts:27-56 | repeating an accepted booking right after it is rejected with TimeNotAvailable when the time's seconds match the date's |

## Left out

- `generateTimeSlots` is not part of this model; its output is a parameter. Every slot must be a well-formed `HH:MM:SS` string. Strictly increasing slots are needed only for the no-duplicates half of `ResolvedSlotsAreOrderedSubsequence`.
- dayjs calendar computations are not modelled; a day is a local calendar day number and its weekday is `(day + 4) mod 7`.
- Daylight-saving time and time zones are not modelled. The server's UTC offset is one fixed integer parameter, `offsetMinutes`.
- Milliseconds of timestamps are dropped. The source keeps the request date's milliseconds in the composed timestamp.
- `getAvailableTimes`' own input schema is not modelled; the model passes the day number directly. The schema requires a `YYYY-MM-DD` date, and the gate builds one with dayjs' `format("YYYY-MM-DD")` (src/actions/add-agendamentos/index.ts:29).
- Dates outside the years 100 to 9999 are not modelled. For a year of 10000 or more, or below 0, the formatted date is not `YYYY-MM-DD`. The inner `z.string().date()` check (src/actions/get-available-times/index.ts:23) then fails, the gate gets no `data`, and it throws "No available times". For the years 0 to 99, dayjs parses the formatted date back as a year in the 1900s. The weekday (line 42) and the same-day filter (line 54) then use a different day from the requested one. The model's day number stands for the requested day in every case.
- Session retrieval (`auth.api.getSession`, `headers()`) is replaced by the session parameter.
- The action client's wrapping is modelled only by its effect. A thrown error or a validation failure becomes a result value. A failed inner `getAvailableTimes` call gives the gate no `data`.
- Database reads and writes are modelled as sequences: `findFirst` and `findMany` read them, and the insert appends to them. Insert failures (foreign keys, constraints) are not modelled.
- `revalidatePath` is not modelled.
- `crypto.randomUUID()` and `new Date()` become the parameters `newId` and `now`.
- zod's uuid and e-mail formats are the parameters `isUuid` and `isEmail`.
- `z.date()` is modelled as a present or absent timestamp; invalid `Date` objects are not modelled.
- Issue messages are not modelled; only the field each issue is reported on.
- Inputs of the wrong JavaScript type are not modelled; they would abort the refinement.
- JavaScript numbers are modelled as integers: weekdays and prices. Fractional values, `NaN` and infinities are not modelled.
- JavaScript compares strings by UTF-16 code units; the model compares characters. The two orders agree on the ASCII time strings involved.
- Stored time bounds must start with `HH:MM` (two digits, a colon, two digits), as the `time` column yields. An hour of 24 or more rolls over through the modulo, as dayjs' `set` rolls past midnight.
- The check-then-insert race between the availability check and the insert is not modelled. Every property is about one request at a time. Two concurrent bookings can both pass the availability test, and nothing here claims otherwise.
- The CRUD actions, the UI components and pages, and the table declarations in `src/db/schema.ts` are not part of this model. The appointment row's shape is taken from the booking insert.
