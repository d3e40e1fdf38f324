# Barbershop admin console — verified model of its scheduling logic

The console (`src/App.js`) is a React front end for a barbershop's
scheduling service. Almost all of it is rendering and `fetch` calls. This
project models in Dafny the part that computes something:

- **Clock** — `"HH:MM"` labels and minutes since midnight: `parseHHMM`,
  the agenda's local `toMinutes`, `minutesToHHMM` and `addMinutesToHHMM`,
  which wraps modulo 24 hours.
- **Calendar** — the `Date` arithmetic of the weekly agenda on day numbers:
  `getDay`, `getMonday`, `addDays`, `getWeekDays`, paging by ±7 days,
  `toISODate` (through a proleptic Gregorian civil-date conversion), and
  `new Date(...)` on the local date-times the console builds.
- **Slots** — the availability grid:
  - both `buildTimeSlots` builders, as loop methods proved against one
    grid function;
  - both `overlapSlotWithCita` copies;
  - the per-day `citas.some(...)` test;
  - the cells, which turn a click on a free slot into a booking draft.
- **Booking**:
  - the `agendarCita` checks and the message for each HTTP answer;
  - the start-hour auto-fill;
  - the message fallback chain of `leerMensajeServidor`;
  - the agenda's quick-booking modal, as a class with its state and
    handlers.
- **Schedules** — `addFila`, `removeFila`, `updateFila` and the empty-list
  guard of `guardarDisponibilidad`.
- **Payments** — the PAGO / DEBE / Pendiente chip, the pay button's
  disabled state and `togglePagado`.
- **Services**:
  - validation in `crearServicio`;
  - the payload of `guardarEdicion`;
  - the active/search filter of the services list.
- **Text** — the string primitives these rest on. These are `String(n)`,
  `Number(s)`, `padStart`, `split`, string `<`, `trim`, `toLowerCase` and
  `includes`.

The two slot builders differ in kind:
- The module-level builder loops on numbers.
- The builder that renders compares `"HH:MM"` strings with `<`.

The model proves both equal to one grid for canonical labels. It also
proves that the string order matches the time order only for such labels:
`"9:00" < "18:00"` is false.

The builders keep adding steps while the start is before the end, and
never clip the last slot to the end of the window. So 09:00–09:30 in hourly
steps gives the one slot 540–600 (`Slots.ShortWindowOneSlot`), and the last
slot of any window ends at or after the window's end
(`Slots.GridLastReachesEnd`).

The weekly agenda carries its own copies of `buildTimeSlots` and
`overlapSlotWithCita` beside the module-level ones. The model keeps all
four: `Slots.BuildersAgree` proves that the two builders give the same grid
on canonical labels, and `Slots.OverlapCopiesAgree` that the two overlap
tests decide alike. Only the agenda's copies run: the grid calls them at
src/App.js:1637 and 1722. The module-level `buildTimeSlots`, `isoToMinutes`
and `overlapSlotWithCita` (src/App.js:1793-1815) are called from nowhere.
Those two lemmas are what tie the module-level copies to the ones that
render.

## Model

| member | source | states |
|---|---|---|
| Text.NatToStringValue | src/App.js:1816-1820 | reading back the decimal digits `String(n)` writes gives n |
| Text.Pad2Value | src/App.js:1816-1820 | `padStart(2, "0")` of `String(n)` is a digit run of length at least 2 whose value is n |
| Text.Pad2Digits | src/App.js:1816-1820 | below 100 the padded field is exactly the tens digit and the units digit |
| Text.Split | src/App.js:1789-1792 | `split` yields at least one piece and no piece contains the separator |
| Text.JoinSplit | src/App.js:1789-1792 | joining the pieces of `split` with the separator gives the string back |
| Text.SplitAtFirst | src/App.js:1789-1792 | the first separator ends the first piece |
| Text.TrimStart | src/App.js:1250 | the result is a suffix of the input that does not start with whitespace, and only whitespace was dropped |
| Text.TrimEnd | src/App.js:1250 | the result is a prefix of the input that does not end with whitespace, and only whitespace was dropped |
| Text.TrimEmptyIff | src/App.js:1250 | `trim()` is empty exactly when the input is all whitespace; otherwise it neither starts nor ends with whitespace |
| Text.ToLower | src/App.js:1374 | same length; each capital A–Z becomes the letter 32 code points on, every other character is kept, so no capital is left |
| Text.Contains | src/App.js:1380 | `includes` is true exactly when the query occurs at some index |
| Clock.ParseHHMM | src/App.js:1789-1792 | `split(":")`, `Number` on both parts, h·60 + m, NaN when a part is missing or not a number; its properties are stated by `Clock.FormatParseRoundTrip`, `Clock.CanonicalRoundTrip` and `Clock.ToMinutesExtendsParse` |
| Clock.ToMinutes | src/App.js:1574-1577 | the agenda's parser, with a missing or NaN minute read as 0; `Clock.ToMinutesExtendsParse` relates it to `parseHHMM` |
| Clock.MinutesToHHMM | src/App.js:1816-1820 | both fields padded to two digits; `Clock.FormatParseRoundTrip` and `Clock.FormatIsCanonical` state that it is inverted by both parsers and canonical below 100 hours |
| Clock.AddMinutesToHHMM | src/App.js:719-727 | empty input returned as is, NaN:NaN for an unparsable hour, otherwise the time n minutes later modulo 24 hours; the edge cases are stated by `Clock.AddMinutesEdges`, the wrap-around by `Clock.AddMinutesWraps`, `Clock.AddMinutesLands` and `Clock.AddMinutesUndo` |
| Clock.AddMinutesEdges | src/App.js:719-727 | an empty input is returned unchanged, and a non-empty one whose hour is not a number gives "NaN:NaN" |
| Clock.FormatParseRoundTrip | src/App.js:1789-1820 | `parseHHMM(minutesToHHMM(m)) == m` and the local `toMinutes` agrees, for every m ≥ 0 |
| Clock.CanonicalRoundTrip | src/App.js:1574-1577 | on a canonical label both parsers give its value and formatting that value gives the label back |
| Clock.FormatIsCanonical | src/App.js:1816-1820 | below 100 hours a formatted time is a canonical label of the same value |
| Clock.ToMinutesExtendsParse | src/App.js:1574-1577 | `toMinutes` agrees with `parseHHMM` wherever the latter is a number; a bare hour is that hour sharp for `toMinutes` and NaN for `parseHHMM` |
| Clock.CanonicalLessIff | src/App.js:1608 | for canonical labels string `<` holds exactly when the first time is earlier |
| Clock.UnpaddedLabelsCompareWrongly | src/App.js:1608 | a label with a one-digit hour from 2 to 9, such as "9:00", is earlier than every canonical time from 10:00 to 19:59, yet string `<` puts it after |
| Clock.AddMinutesWraps | src/App.js:719-727 | the sum is a canonical label of a time within the day whose value is (start + n) mod 1440 |
| Clock.AddMinutesLands | src/App.js:719-727 | a canonical start plus n minutes is exactly the canonical label of (start + n) mod 1440 |
| Clock.AddMinutesUndo | src/App.js:719-727 | adding n minutes and then −n gives back any canonical time of day |
| Clock.AddHourExamples | src/App.js:719-727 | 23:00 plus 60 is 00:00 and 09:00 plus 60 is 10:00 |
| Calendar.Weekday | src/App.js:1760 | `getDay()` on a day number, 0 for Sunday, with 1970-01-01 a Thursday; `Calendar.GetMonday` and `Calendar.GetMondayIsMostRecentMonday` state what it is used for |
| Calendar.AddDays | src/App.js:1771-1775 | the same time of day n days later; `Calendar.WeekWindowMondayToSunday` and `Calendar.PagingKeepsAnchor` state its effect on the week window |
| Calendar.NextWeek | src/App.js:1668 | the anchor 7 days on; `Calendar.PagingKeepsAnchor` states that it stays a Monday at midnight and that PrevWeek undoes it |
| Calendar.PrevWeek | src/App.js:1667 | the anchor 7 days back; `Calendar.PagingKeepsAnchor` states that it stays a Monday at midnight and that NextWeek undoes it |
| Calendar.GetMonday | src/App.js:1758-1765 | the result is a Monday at midnight, at most six days before the given day |
| Calendar.GetMondayIsMostRecentMonday | src/App.js:1758-1765 | no later Monday is at or before the day; a Sunday goes back 6 days; an anchor maps to itself; idempotent |
| Calendar.GetWeekDays | src/App.js:1766-1769 | the window has seven days |
| Calendar.WeekWindowMondayToSunday | src/App.js:1766-1775 | from an anchor the window is seven consecutive midnights, Monday first and Sunday last |
| Calendar.PagingKeepsAnchor | src/App.js:1667-1668 | paging by +7 or −7 keeps the anchor a Monday at midnight, and the two directions undo each other |
| Calendar.CivilFromDays | src/App.js:1776-1781 | the civil date of a day number has month 1..12 and a day from 1 to that month's length in that year (29 February only in leap years), and converting it back gives the same day number |
| Calendar.ToISODate | src/App.js:1776-1781 | the unpadded year, then month and day padded to two digits; `Calendar.ToISODateInjective` and `Calendar.IsoDateRoundTrip` state that it is one-to-one and read back by the parser |
| Calendar.ToISODateInjective | src/App.js:1776-1781 | two different days never have the same ISO date string |
| Calendar.WeekKeysDistinct | src/App.js:1776-1781 | the seven days of a window have seven different ISO keys |
| Calendar.IsoDateRoundTrip | src/App.js:1776-1781 | for four-digit years, parsing `toISODate(d)` gives d's day back |
| Calendar.DraftStringRoundTrip | src/App.js:947-950 | `${toISODate(d)}T${minutesToHHMM(m)}:00` parses to minute m of day d, and `isoToMinutes` reads m back |
| Calendar.ParseLocal | src/App.js:1622-1624 | `new Date(...)` on the local date-times the console builds; `Calendar.ParseLocalOfParts` and `Calendar.DraftStringRoundTrip` state what it reads back |
| Calendar.IsoToMinutes | src/App.js:1807-1810 | the minute of the day of a parsed local date-time, NaN for an invalid one; `Calendar.DraftStringRoundTrip` states that it reads back the minute written |
| Calendar.ParseLocalOfParts | src/App.js:752-756 | a valid date joined with a canonical time parses to that day at that minute |
| Slots.Grid | src/App.js:1793-1806 | one slot of `step` minutes per start below the end, labelled with its start; `Slots.GridLength`, `Slots.GridAt` and `Slots.GridLastReachesEnd` state its shape |
| Slots.GridLength | src/App.js:1793-1806 | the grid has ceil((end − start) / step) slots: none when start ≥ end, otherwise n with (n − 1)·step < end − start ≤ n·step |
| Slots.GridAt | src/App.js:1793-1806 | slot i starts at start + i·step, before end, ends step minutes later, and its label is `minutesToHHMM` of its start |
| Slots.GridLastReachesEnd | src/App.js:1796-1804 | the last slot ends at or after the day's end: it is not clipped |
| Slots.BuildTimeSlots | src/App.js:1793-1806 | the `for` loop returns exactly the grid between the parsed bounds, and nothing when a bound is NaN |
| Slots.BuildTimeSlotsLocal | src/App.js:1606-1619 | the string-compare `while` loop returns exactly the grid between the values of its canonical bounds |
| Slots.BuildersAgree | src/App.js:1606-1619 | on canonical labels the two builders specify the same grid |
| Slots.WorkingDayGrid | src/App.js:1569-1571 | the agenda's day, 540 to 1080 in steps of 60, is nine slots: the first is 540–600 "09:00" and the last 1020–1080 "17:00" |
| Slots.ShortWindowOneSlot | src/App.js:1606-1619 | a window no longer than one step gets exactly one whole, unclipped slot, so 09:00–09:30 hourly is the slot 540–600 |
| Slots.Overlaps | src/App.js:1807-1815 | strict overlap of the slot with the appointment's minutes of the day, false for an invalid date; `Slots.OverlapIffSharedMinute` states what it means |
| Slots.OverlapsLocal | src/App.js:1622-1628 | the agenda's own copy of the overlap test; `Slots.OverlapCopiesAgree` states that it decides like `Slots.Overlaps` |
| Slots.OverlapCopiesAgree | src/App.js:1622-1628 | the agenda's local overlap test and the module-level one decide alike |
| Slots.OverlapIffSharedMinute | src/App.js:1811-1815 | for non-empty intervals, overlap holds exactly when some minute lies in both; touching ends and unparsable dates never overlap |
| Slots.Booked | src/App.js:1722 | a slot is booked exactly when some appointment of the day overlaps it |
| Slots.BookedIgnoresOrder | src/App.js:1722 | any rearrangement of the day's list books the same slots |
| Slots.CellFor | src/App.js:1721-1737 | a cell is booked iff an appointment overlaps; clickable iff free and a handler is given; a click emits {dayISO, startMin, endMin} of that slot |
| Slots.DayRow | src/App.js:1721-1737 | one cell per slot, each computed from that day's appointments, `|| []` when the day has none |
| Slots.WeekGrid | src/App.js:1710-1737 | seven rows, one per day of the window, each keyed by that day's ISO date; `Slots.WeekGridCell` states which appointments colour each cell |
| Slots.WeekGridCell | src/App.js:1715-1737 | a cell of day d is booked exactly when an appointment under d's own ISO key overlaps it, and no other day of the window shares that key |
| Slots.DraftCita | src/App.js:947-950 | `${dayISO}T${minutesToHHMM(min)}:00` for both ends; `Slots.DraftBooksItsSlot` and `Calendar.DraftStringRoundTrip` state that it reads back as the clicked slot |
| Slots.DraftBooksItsSlot | src/App.js:941-950 | the appointment a clicked slot turns into overlaps that slot and no slot that only touches it |
| Slots.OneAppointmentExample | src/App.js:1721-1722 | with hourly slots 09:00–18:00 and one appointment 10:00–11:30, exactly the 10:00 and 11:00 slots are booked |
| Booking.SetHoraInicio | src/App.js:886-890 | choosing a start hour sets the end to one hour later and leaves the other fields alone |
| Booking.PrepareCita | src/App.js:743-770 | a request is built iff all fields are filled, both date-times parse, and the end is at least 60 minutes after the start; it carries exactly the validated strings |
| Booking.RejectionOrder | src/App.js:743-770 | missing fields win over a bad date-time, which wins over the time order; a reversed interval is reported as such |
| Booking.SameDayValidation | src/App.js:752-770 | for canonical times on a valid date: accepted iff end − start ≥ 60 minutes; end ≤ start is refused as such, and a shorter interval as too short |
| Booking.AutoFilledEnd | src/App.js:886-890 | the auto-filled end passes validation for starts before 23:00, and from 23:00 it is 00:00 and is refused |
| Booking.DraftMeetsFormChecks | src/App.js:941-950 | a slot draft would pass the form's checks exactly when the slot lasts at least an hour, and then it posts the same strings |
| Booking.FirstNonEmpty | src/App.js:14 | `a \|\| b \|\| …` on strings: empty iff all are empty, otherwise the first non-empty one |
| Booking.LeerMensajeServidor | src/App.js:9-21 | `message`, `mensaje`, `error`, the raw text, then "HTTP status", with an empty string counting as absent; `Booking.MessagePrecedence` states the order |
| Booking.MessagePrecedence | src/App.js:9-21 | the message is never empty; `message`, then `mensaje`, then `error`, then the text win in that order, with "HTTP status" last |
| Booking.RejectionNotice | src/App.js:743-770 | every refusal is shown as a non-empty error |
| Booking.SubmitResult | src/App.js:785-806 | a success shows "Cita agendada exitosamente" and is the only outcome that clears the form; 409, 422 and 404 have their own messages; any other failure status shows the server's message; an exception shows "Error al agendar cita" |
| Booking.AgendarCita | src/App.js:743-806 | a request is posted iff the checks pass; a refused form is unchanged and shows why |
| Booking.QuickBooking.constructor | src/App.js:926-928 | the modal starts closed with nothing chosen |
| Booking.QuickBooking.OpenFromSlot | src/App.js:1006 | a click opens the modal on the slot's draft and keeps earlier choices |
| Booking.QuickBooking.SelectCliente | src/App.js:1032 | sets the client and nothing else |
| Booking.QuickBooking.SelectServicio | src/App.js:1045 | sets the service and nothing else |
| Booking.QuickBooking.Close | src/App.js:935-939 | closes the modal and clears both choices |
| Booking.QuickBooking.Pending | src/App.js:941-950 | nothing without a draft or barber; a failure exactly when a choice is missing, and then the error "Selecciona cliente y servicio"; otherwise the draft's own date-time strings |
| Booking.QuickBooking.Confirm | src/App.js:941-976 | posts only the pending request; a success notifies and closes and clears the modal; a refusal shows the server's message and an exception "Error al crear cita", and both keep the draft and choices |
| Schedules.AddFila | src/App.js:400 | appends exactly one row {1, "09:00", "18:00"} after the old rows |
| Schedules.RemoveFila | src/App.js:401 | removes the row at i and only it; an index outside the list changes nothing |
| Schedules.UpdateFila | src/App.js:402 | row i gets the new value in the chosen field only; every other row is unchanged |
| Schedules.RemoveUndoesAdd | src/App.js:400-401 | removing the row just added gives the old list back |
| Schedules.RemoveAfterUpdate | src/App.js:401-402 | an edit of a row that is then removed leaves no trace |
| Schedules.UpdateTwiceLastWins | src/App.js:402 | two edits of the same field of a row, any of the three fields, leave what the second edit alone leaves |
| Schedules.UpdateOtherFieldsCommute | src/App.js:402 | edits of two different fields of a row give the same rows in either order |
| Schedules.GuardarDisponibilidad | src/App.js:427-438 | an empty list is refused with "Añade al menos una fila"; otherwise all rows are sent in order |
| Schedules.AddedRowIsSaved | src/App.js:400-438 | after adding a row the list can always be saved and ends with the default row |
| Payments.YaPaso | src/App.js:1095-1096 | the end instant lies strictly before now; `Payments.ChipAtEnd` states its effect on the chip and the handler |
| Payments.ChipAtEnd | src/App.js:1094-1097 | with both computed from the same end and now, the chip is Pendiente exactly while now ≤ end, and the handler sends nothing then |
| Payments.ChipFor | src/App.js:1162-1173 | Pendiente iff not over, PAGO iff over and paid, DEBE iff over and unpaid |
| Payments.TogglePagado | src/App.js:1094-1104 | something is sent exactly when the appointment is over and it is either paid already or the user confirms; what is sent is the negated flag |
| Payments.ButtonDisabled | src/App.js:1193 | disabled before the end, while this appointment's request runs, and once paid; `Payments.ButtonOnlyMarksPaid` states what that leaves enabled |
| Payments.ButtonOnlyMarksPaid | src/App.js:1193 | the button is enabled exactly on a DEBE chip, and pressing it can only send "paid", after confirmation |
| Payments.PaymentNotice | src/App.js:1105-1121 | a success shows "Cita marcada como PAGO"/"DEBE", a refusal shows the server's message, and an exception shows "Error al actualizar estado de pago" |
| Services.CrearServicio | src/App.js:1249-1258 | accepted iff the trimmed name is non-empty and the price is a number; the name is sent trimmed |
| Services.BlankNameRefused | src/App.js:1250 | an all-whitespace name is refused as missing |
| Services.GuardarEdicion | src/App.js:1292-1312 | no-op without an id; "No hay cambios" iff neither name nor price counts; the "Precio inválido" branch never fires |
| Services.ClearedPriceIsZero | src/App.js:1297-1299 | an open edit with a cleared price is always sent, and it sets the price to 0 |
| Services.Filter | src/App.js:1370-1372 | `filter` keeps every element that satisfies the predicate as often as it occurs, and no other |
| Services.FilterAppend | src/App.js:1370-1372 | filtering a concatenation filters each part and keeps their order |
| Services.VisibleServicios | src/App.js:1370-1382 | a service is listed iff it passes the switch and its lower-cased name or price contains the lower-cased query, and then as often as it occurs in the catalogue |
| Services.VisibleAppend | src/App.js:1370-1382 | the list of two concatenated catalogues is the two lists one after the other |
| Services.VisibleExtremes | src/App.js:1370-1376 | an empty search with the switch on lists everything; with it off, only active services are ever listed |
| Services.SearchIgnoresCase | src/App.js:1374-1376 | a query in capitals lists the same services |
| Services.NameHitIsListed | src/App.js:1377-1381 | a service whose name contains the query, in any case, is listed when it passes the switch |

## Left out

- HTTP, `res.text()` and `JSON.parse` are network I/O. A fetch's result is a parameter (`Outcome`): an exception, or a status and a body. A JSON body is given as the three string fields the message chain reads.
- The `useEffect` week loader and its `cancelado` flag are left out. They are asynchronous supersession, and the seven per-day fetches are plumbing. The per-day map they fill is an input of `Slots.WeekGrid`.
- React state, hooks, JSX, CSS classes and navigation are UI. The state a handler changes is modelled only where the handler computes something: the form datatypes, the schedule rows and the quick-booking modal.
- `Date.now()` becomes a parameter: `Payments.YaPaso` compares the end against a given now. The "today" computed with `toISOString` is not modelled.
- Locale formatting (`toLocaleDateString`, `toLocaleTimeString`, `toLocaleString("es-CO")`) and `formatDate`/`weekdayLabel` produce display text only, so they are not modelled.
- `window.confirm` becomes a boolean parameter of `Payments.TogglePagado`. `alert` and `setTimeout` are browser calls.
- The `sort` of the appointments table by start instant, newest first (src/App.js:1125-1127), is not modelled. It only orders the rows of the payments table, and no modelled member reads that list.
- Text.NumberOf: `Number(s)` is modelled on strings of ASCII digits only, with "" giving 0. Signs, decimals, exponents and surrounding whitespace give NaN in the model, though JavaScript accepts them. Prices are whole numbers for the same reason; floating point is not modelled.
- Text.ToLower: only the ASCII letters are lower-cased. Other Unicode case mappings are not modelled.
- Calendar.ParseLocal: only the local forms `YYYY-MM-DDTHH:MM` and `YYYY-MM-DDTHH:MM:SS` are read; these are the forms the console builds. A day of month up to 31 rolls over into the next month, as V8 does. Zone suffixes, fractional seconds and other engines' stricter checks are not modelled. The appointment strings the agenda fetches from the backend (src/App.js:1648-1655) reach `new Date` in the agenda's own overlap test (src/App.js:1622-1628), the one the grid calls at src/App.js:1722. If the backend sends them with fractional seconds or a zone suffix, the program can mark a slot booked that the model leaves free, because the model reads such a string as an invalid date.
- Daylight-saving transitions are not modelled: every local day has 24 hours. Dates after year 275760 (the `Date` range limit) are not modelled either.
- Appointments that cross midnight are not modelled correctly. `isoToMinutes` keeps only the time of day, so such an appointment is mis-classified. `Slots.DraftBooksItsSlot` and `Slots.OneAppointmentExample` therefore keep both ends on one day.
- Slots.BuildTimeSlotsLocal: is proved only for canonical `"HH:MM"` bounds where the end's value plus the step is at most 6000 minutes (100 hours). Outside that range the string comparison no longer follows the time order (`Clock.UnpaddedLabelsCompareWrongly`), and the method does not claim equality with the grid there.
- Slots.BuildTimeSlots and Slots.BuildTimeSlotsLocal: require a positive step. With a step of 0 or less and the start before the end, the source never leaves its loop; when the start is not before the end both loops exit at once with no slots.
- The duplicate helpers inside the weekly agenda (`getMonday`, `addDays`, `toISODate`, `getWeekDays` at src/App.js:1578-1603) are written the same way as the module-level ones. They are modelled once.
- `agregarHorario` (adding one schedule row directly) and the service delete/reactivate handlers are left out. They only post, then reset a form.
