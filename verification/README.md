# Age calculator: a Dafny model

This project models the logic of the age calculator in `src/FormData.tsx`:
a birth date typed as `YYYY-MM-DD` is parsed into a local calendar date,
validated against today's date, broken down into years, months and days
(`anos`, `meses`, `dias`) with day and month borrowing, and the raw input
together with its breakdown is kept in the browser's local storage under the
key `"formData"`, so that a reload shows it again.

Modules, one per component:

- `Wrappers` — `Option` (a JavaScript `NaN`, `undefined` or invalid `Date`) and `Outcome`.
- `Calendar` — proleptic Gregorian arithmetic. It also models `new Date(year, monthIndex, day)`, which is `criarDataLocal`. Out-of-range months carry into the year. Days past either end of a month roll over month by month. A date whose time value exceeds ECMAScript's TimeClip bound (8.64e15 ms) is invalid. Every date gets an absolute day number, and comparing two `Date` objects is proved to be calendar order.
- `DateParsing` — `stringParaDataLocal`: `split('-')`, `Number` on each component, then the constructor with a zero-based month.
- `AgeCalc` — `calcularIdadeDetalhada`, reproducing its borrow formula exactly.
- `Validation` — `validarDataNascimento`: required, then invalid, then future.
- `Persistence` — the `useLocalStorage` hook over a key/value store that may be unavailable.
- `AgeForm` — the session: mount and rehydration, the submit handler and the clear button.

"Today" (`new Date()`) is a parameter everywhere, so every member is pure. The submit handler reads the clock twice, once in validation and once in the breakdown, so `AgeForm.Submit` takes two days, the second never earlier than the first.

Three behaviours of the code are easy to miss:

- A day that does not exist in its month is not rejected. `2024-04-31` becomes 1 May and `2024-13-01` becomes 1 January 2025. Once that date is reached, such input passes validation.
- `dias` is not clamped. It ranges over -2..30. Born 2000-01-31, seen 2000-03-01, the code gives 0 years, 1 month and -1 days. `AgeCalc.MonthEndGivesNegativeDays` and `AgeCalc.DaysBounds` state this.
- Clearing removes the stored item. A reload then loads the default record (`""`, no breakdown). The hook's in-memory copy is not reset.

## Model

| member | source | states |
|---|---|---|
| Calendar.RollDays | src/FormData.tsx:45-47 | rolling a day past either end of its month always lands on a real calendar day |
| Calendar.RollDaysKeepsDay | src/FormData.tsx:45-47 | the rolled date has the absolute day number of the unnormalised (year, month, day), so overflowing and underflowing days roll over into the neighbouring months |
| Calendar.Normalise | src/FormData.tsx:45-47 | the `Date` constructor's fields always name a real calendar day |
| Calendar.NormaliseKeepsDay | src/FormData.tsx:45-47 | the constructor names the day that the fields count to once whole years of months are carried (month index 12 is January of the next year, -1 December of the previous) |
| Calendar.CreateLocal | src/FormData.tsx:45-47 | a built date is the normalised date of the fields, a real and representable day; the `Date` is invalid exactly when the normalised day lies outside the time-value range |
| Calendar.CreateLocalKeepsDay | src/FormData.tsx:45-47 | a built date has the day number the month-carried fields count to, so (with `Calendar.DayNumberOrder`) it is the unique real date MakeDay names |
| Calendar.InRangeIsTimeClip | src/FormData.tsx:45-47 | the representable days -271821-04-20 to 275760-09-13 are exactly the real days whose local-midnight time value is within 8.64e15 ms of the epoch |
| Calendar.Recreate | src/FormData.tsx:95-96 | rebuilding a date from its own year, month and day gives the same date |
| Calendar.LastDayOfPreviousMonth | src/FormData.tsx:103 | day 0 of today's month is the length of the preceding month, January wrapping to December of the previous year |
| Calendar.DayNumberOrder | src/FormData.tsx:128 | for real dates, day-number order is exactly (year, month, day) order, and equal day numbers mean equal dates |
| Calendar.TimeValueOrder | src/FormData.tsx:128 | `data > hojeLocal` on local midnights holds exactly when the birth date is a later calendar day than today |
| DateParsing.SplitThenJoin | src/FormData.tsx:51 | joining the pieces of `split('-')` with '-' gives the input back |
| DateParsing.SplitPiecesSeparatorFree | src/FormData.tsx:51 | no piece of `split('-')` contains '-' |
| DateParsing.SplitJoin | src/FormData.tsx:51 | splitting a '-'-join of separator-free pieces gives the pieces back |
| DateParsing.Split | src/FormData.tsx:51 | `split('-')` gives at least one piece; `SplitThenJoin`, `SplitPiecesSeparatorFree` and `SplitJoin` pin the pieces |
| DateParsing.ToNumber | src/FormData.tsx:51 | `Number` of a component is a non-negative value exactly when it is all digits, and the empty component is 0 |
| DateParsing.PaddedNumber | src/FormData.tsx:51 | `Number` reads back every non-negative integer from its zero-padded decimal spelling, which contains no '-' |
| DateParsing.ParseDate | src/FormData.tsx:50-53 | a successful parse is always a real calendar day within the time-value range |
| DateParsing.FromParts | src/FormData.tsx:51-52 | fewer than three pieces, or a non-digit piece among the first three, give an invalid Date (a missing piece is `undefined`, then `NaN`); three digit pieces give exactly the date built from their values with the month made zero-based |
| DateParsing.ExtraPiecesIgnored | src/FormData.tsx:51 | pieces after the third play no part in the result |
| DateParsing.FromFields | src/FormData.tsx:52 | the result is an invalid Date exactly when a field is `NaN` or the normalised (year, month - 1, day) lies outside the time-value range; otherwise it is that normalised date |
| DateParsing.ParseFields | src/FormData.tsx:50-53 | parsing the zero-padded `YYYY-MM-DD` text of natural fields is exactly building the date from (y, m - 1, d), so out-of-range fields roll over instead of failing |
| DateParsing.ParseDigitFields | src/FormData.tsx:50-53 | any three digit strings joined by `-`, unpadded or with extra leading zeros, parse as the date built from their values with the month made zero-based |
| DateParsing.ParseFormatRoundTrip | src/FormData.tsx:50-53 | every real in-range date with a non-negative year written as `YYYY-MM-DD` parses back to itself |
| DateParsing.MonthThirteenRollsOver | src/FormData.tsx:45-53 | month 13 of any year parses to 1 January of the next year (`2024-13-01` is 1 January 2025) |
| DateParsing.NonNumericFirstComponent | src/FormData.tsx:50-53 | text whose first '-'-separated component is not a number does not parse, whatever follows (`not-a-date`) |
| AgeCalc.Subtract | src/FormData.tsx:98-111 | after both borrows months lie in 0..11, years * 12 + months equals the whole months elapsed, and days is the plain difference or the borrowed length minus birth day plus today's day |
| AgeCalc.Breakdown | src/FormData.tsx:91-114 | the breakdown of rebuilt dates keeps months in 0..11 and years * 12 + months equal to the whole months elapsed; the day borrow uses the length of the month before today's month |
| AgeCalc.Reconstruct | src/FormData.tsx:95-113 | adding the breakdown back to the birth date with the `Date` constructor's rollover (`new Date(year + anos, month + meses, day + dias)`) gives today, for all real dates, negative `dias` included |
| AgeCalc.SameDayIsZero | src/FormData.tsx:98-113 | a birth date equal to today gives 0 years, 0 months, 0 days |
| AgeCalc.YearsAndMonths | src/FormData.tsx:98-111 | years and months are the quotient and remainder by 12 of the whole months elapsed |
| AgeCalc.YearsNonNegativeIff | src/FormData.tsx:98-111 | years are non-negative exactly when the birth date is not after today |
| AgeCalc.DaysBounds | src/FormData.tsx:100-104 | days lie in -2..30, and are negative exactly when the birth day exceeds the borrowed month's length plus today's day |
| AgeCalc.LeapDayBirthday | src/FormData.tsx:102-106 | born 29 February, seen 28 February of the next year: 0 years, 11 months, 30 days |
| AgeCalc.MonthEndGivesNegativeDays | src/FormData.tsx:100-106 | born 31 January, seen 1 March of that year: 0 years, 1 month and -1 days (leap year) or -2 days |
| AgeCalc.Anniversary | src/FormData.tsx:98-113 | on the same month and day n years later the breakdown is n years, 0 months, 0 days |
| AgeCalc.OneDayOld | src/FormData.tsx:98-113 | seen on the day after birth the breakdown is 0 years, 0 months, 1 day, also across a month end where the borrow gives back one day |
| AgeCalc.AgeAdvancesDaily | src/FormData.tsx:98-113 | when today advances one day the breakdown strictly increases in (years, months, days) order |
| Validation.Message | src/FormData.tsx:118-129 | each failure has a non-empty text |
| Validation.MessagesDistinct | src/FormData.tsx:118-129 | the three failure texts differ, so the message identifies which check failed |
| Validation.Validate | src/FormData.tsx:117-133 | empty input is Required; otherwise an unparseable one is InvalidDate; otherwise a birth date later than today is FutureDate; everything else passes |
| Validation.AcceptedAgeIsNonNegative | src/FormData.tsx:128-132 | input that passes validation has a breakdown with non-negative years and months in 0..11 |
| Validation.TodayPasses | src/FormData.tsx:128-132 | a birth date equal to today passes validation |
| Validation.MalformedInputs | src/FormData.tsx:118-126 | `""` fails as required, and text with a non-numeric first component such as `not-a-date` fails as an invalid date |
| Validation.RolledOverMonthPasses | src/FormData.tsx:120-132 | month 13 (`2024-13-01`) is not rejected as invalid and passes once 1 January of the next year is reached |
| Persistence.Load | src/FormData.tsx:16-26 | the stored value when storage is available and the item decodes; any other result is the initial value |
| Persistence.Save | src/FormData.tsx:28-39 | writing stores the value under the key on an available store, leaves an unavailable store unchanged, and changes no other key |
| Persistence.Remove | src/FormData.tsx:276 | removal deletes the key and changes no other key |
| Persistence.LoadFallsBack | src/FormData.tsx:16-26 | without storage, without the key, or with an undecodable item, loading gives the initial value |
| Persistence.SaveThenLoad | src/FormData.tsx:16-39 | a value saved to an available store loads back unchanged |
| Persistence.SaveKeepsOtherKeys | src/FormData.tsx:34 | saving under one key does not change what another key loads |
| Persistence.RemoveThenLoad | src/FormData.tsx:276 | after removal the key loads as the initial value, and removing twice equals removing once |
| AgeForm.Rehydrate | src/FormData.tsx:76-82 | the mount effect copies back the saved input only when non-empty and the saved breakdown only when present |
| AgeForm.Mount | src/FormData.tsx:16-82 | a page load keeps the store, takes the hook's copy from it (or the default record), and shows exactly that copy's input and breakdown |
| AgeForm.Submit | src/FormData.tsx:117-144 | the verdict is validation's on the first clock reading; a rejection changes nothing but the field; an acceptance shows the breakdown on the second reading and saves exactly the raw string with that breakdown |
| AgeForm.ClearSaved | src/FormData.tsx:275-282 | clearing removes the stored item, empties the input and hides the breakdown, but keeps the hook's copy |
| AgeForm.ReloadAfterSubmit | src/FormData.tsx:135-144 | after an accepted submission a reload shows the same input and the same breakdown |
| AgeForm.SubmitAcrossMidnight | src/FormData.tsx:91-144 | today's own `YYYY-MM-DD` date passes validation, and when the breakdown's clock reading falls on the next day it is shown as 0 years, 0 months, 1 day |
| AgeForm.ReloadAfterClear | src/FormData.tsx:275-282 | after clearing, a reload shows an empty input and no breakdown; clearing is idempotent |
| AgeForm.RejectedSubmitKeepsStore | src/FormData.tsx:182-187 | a submission that fails validation leaves what a reload would show unchanged |
| AgeForm.ClearLeavesStaleCopy | src/FormData.tsx:272-282 | after clearing, the store loads the default while the hook's copy still holds the old input |

## Left out

- Rendering, styling, focus handling (`useRef`) and react-hook-form's wiring are not modelled. Only their effect is kept: validation runs before the submit handler.
- `formatarDataExibicao` is left out. It is locale formatting (`toLocaleDateString('pt-BR')`) done by the runtime.
- The clock is a parameter. `new Date()` is not modelled.
- The local time-zone offset and daylight saving time are left out. Time values are those of UTC midnight, which moves the TimeClip boundary by at most a day.
- The `Date` constructor maps years 0-99 to 1900-1999. That quirk is left out: years are unbounded integers.
- DateParsing.ToNumber: models `Number` only for digit strings and the empty string. Components with whitespace, a `+` sign, decimals, exponents or hexadecimal are read as `NaN` (an invalid date), although `Number` accepts them; a date input never produces them. The loss of precision above 2^53 is not modelled.
- Calendar.LastDayOfPreviousMonth: does not apply the time-value range to the day-0 date. That range only matters about 270,000 years from 1970, far from any clock date.
- JSON encoding is an identity round trip. Stored text either decodes to a record or is unreadable. Text that decodes to a value of another shape, such as `null`, is not modelled.
- Storage failures are reduced to an unavailable store: loads fall back and saves are dropped. `console.error` logging is left out.
- The functional-update form of the hook's setter (`value instanceof Function`) is left out. The component never uses it.
- The earlier form variants under `calcIdade/` are not part of this model. calcIdade/src/FormData.tsx validates with the runtime's `new Date(value)` parsing; calcIdade/src/Formulario.tsx is a numeric age field with declarative required/min/max/pattern checks and no date.
