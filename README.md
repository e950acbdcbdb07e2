# Birthday reminder core (cumple.py), modelled in Dafny

`cumple.py` reads a roster of people from a spreadsheet (columns `Nombre`,
`Cargo`, `Fecha`, `Enviado`). It finds the birthdays that fall within a
window of `DIAS_VENTANA` days starting today. For each of them it sends a
WhatsApp message to every number in `NUMEROS_DESTINATARIOS`. When at least one
send went through, it records the year of the occurrence in the row's
`Enviado` cell, so the same birthday is not announced twice in one year.

The model covers:

- **PyText** (`pytext.dfy`): the Python string behaviour the script relies on.
  This covers `str.isspace`/`strip`, `split` on one character, and the
  `re.split(r"[,\s]+")` tokenisation. It also covers `in` on strings,
  `int(str)`, `str(int)` and `f"{n:02d}"`.
- **Calendar** (`calendar.dfy`): `datetime.date` on years 1..9999. This covers
  construction with its `ValueError`s, ordering, and `(a - b).days` through
  `toordinal`.
- **BirthdayDates** (`birthday_dates.dfy`): `parse_fecha_ddmmyy`, `_safe_date`
  and `dias_hasta_proximo`.
- **Sheet** (`sheet.dfy`): the worksheet as the client shows it. It is a class
  with a header row and data rows that `update_cell` changes in place. It also
  covers `list.index` and the record dictionaries of `get_all_records`.
- **SentLedger** (`sent_ledger.dfy`): `ya_enviado_en_anio` and
  `marcar_enviado`. The latter is a method that rewrites one cell of the
  worksheet.
- **Messaging** (`messaging.dfy`): `construir_mensaje`, the date shown in the
  message (`fecha_mostrar`), and the recipient list built from
  `NUMEROS_DESTINATARIOS`.
- **Dispatch** (`dispatch.dfy`): `main`. It checks for no records and for
  missing columns, then runs the loop over the records. Each record is
  planned, its message is built and sent to every recipient, and its ledger
  is marked. Finally come the counters `enviados`/`omitidos`.
  - The loop is imperative: `RunRecords`, `Step`, `HandleRecord`, `SendToAll`.
    It is proved against specification functions: `Plans`, `Messages`,
    `RowsAfter`, `Log`, `SentCount`, `SkippedCount`.
  - The properties of the run are lemmas about those functions.

Outside effects are parameters of `Dispatch.Setup`:

- today's date;
- the window;
- the recipient list;
- `delivered(i, j)`: whether `enviar_whatsapp` succeeded for record `i` and recipient `j`;
- `markFails(i)`: whether `marcar_enviado` raised inside the spreadsheet client.

The model follows the code. In two places the code does something its own
docstrings and comments do not announce. The docstring of `ya_enviado_en_anio`
(cumple.py:226-227) and the comment at cumple.py:307 promise one message per
year. The docstring of `dias_hasta_proximo` (cumple.py:84-86) promises that 29
February falls back to 28 February in a common year.

- A year counts as sent when it is a *token* of the `Enviado` cell
  (`ya_enviado_en_anio`). `marcar_enviado` instead leaves the cell alone when
  the year occurs in it as a *substring*.
  - So a cell such as `"12025"` is never marked for 2025, and the birthday is
    announced again on every run (`SentLedger.SubstringMarkDisagrees`,
    `Dispatch.ReplanAfterMark`, `Dispatch.SecondRunSkips`).
  - Tokens are compared as text, not as integers.
- On 28 February 2025 a 29 February birthday counts as due today. The message
  still shows the date as `29/02/2025`: the date shown is built from the
  parsed day and month, not from the fallback date (`Dispatch.LeapDayScenario`).

`int()` skips less whitespace than `str.strip()`. It does not skip the four
separator characters U+001C..U+001F, so a date such as `"5\x1c/3"` is
rejected (`PyText.IntKeepsSeparators`).

The loop methods `RunRecords`, `Step` and `HandleRecord` take the planner and
the message builder as function values. `Dispatch.Run` builds both itself,
from `PlanFields` and `MessageOf`, so the loop sees them only through the
`PlannedAs` predicate.

## Model

| member | source | states |
|---|---|---|
| PyText.StripBlank | cumple.py:244 | `str.strip()` leaves nothing exactly when every character is whitespace |
| PyText.TokensOfStrip | cumple.py:231 | stripping before `re.split(r"[,\s]+")` does not change the tokens |
| PyText.Tokens | cumple.py:231 | the kept tokens are non-empty and hold no comma or whitespace |
| PyText.SplitJoin | cumple.py:45 | splitting a join of separator-free pieces on the separator gives the pieces back |
| PyText.JoinSplit | cumple.py:45 | joining the pieces of a split with the same character gives the string back |
| PyText.ParseIntOfIntToString | cumple.py:76-77 | `int(str(n)) == n` for every integer, negative ones included |
| PyText.ParseIntOfZeroPad2 | cumple.py:312 | `int(f"{n:02d}") == n`: the zero padding reads back as the same number |
| PyText.ParseIntDigits | cumple.py:76-77 | `int()` reads a plain digit string, leading zeros included, as its decimal value |
| PyText.ParseInt | cumple.py:76-77 | an accepted text, once `int()` whitespace is gone, starts with a digit or a sign and ends with a digit; only a leading minus sign gives a negative value |
| PyText.IntKeepsSeparators | cumple.py:76-77 | a digit followed by one of U+001C..U+001F is rejected by `int()`, though `str.strip()` would remove that character |
| PyText.NatToStringValue | cumple.py:232 | the digits `str(n)` writes denote `n` |
| Calendar.MakeDate | cumple.py:79 | `datetime.date(y, m, d)` succeeds exactly for a real date in years 1..9999, and then is that date |
| Calendar.OrdinalOrder | cumple.py:101 | date comparison agrees with comparing day numbers, and equal day numbers mean equal dates |
| Calendar.DaysBeforeYearStep | cumple.py:102 | the day count moves by 366 across a leap year and by 365 across any other year |
| Calendar.OneYearLater | cumple.py:103-105 | the same month one year on is 365 days later, plus the leap day that lies in between |
| BirthdayDates.DayMonthOfPieces | cumple.py:74-80 | a day and month it accepts form a real date of the leap year 2000 |
| BirthdayDates.ParseDayMonth | cumple.py:66-80 | a day and month `parse_fecha_ddmmyy` accepts form a real date of the leap year 2000 |
| BirthdayDates.ParseDayMonthReads | cumple.py:71-77 | too few parts exactly when the cleaned text has no second piece; an integer error exactly when `int()` rejects one of the first two pieces; on success the day and month are `int()` of those pieces |
| BirthdayDates.ParseOfDigits | cumple.py:71-80 | `"dd/mm"` in digits parses exactly when it names a real day of 2000, and then to those numbers |
| BirthdayDates.YearPartIgnored | cumple.py:71-80 | whatever follows the second separator has no effect on the result |
| BirthdayDates.ParseOfDigitsWithYear | cumple.py:71-80 | `"dd/mm/<anything>"` in digits parses as `"dd/mm"`: accepted exactly for a real day of 2000 |
| BirthdayDates.ParseLeapDayExample | cumple.py:78-79 | `"29/02/<anything>"` is accepted as (29, 2) because the reference year is a leap year |
| BirthdayDates.ParseBadDayExamples | cumple.py:79 | `"31/04"` and `"0/5"` are rejected |
| BirthdayDates.ParseBadMonthExample | cumple.py:79 | `"31/13/25"` is rejected |
| BirthdayDates.EmptyDateFails | cumple.py:73-75 | an empty date has too few pieces and is rejected with that error |
| BirthdayDates.SafeDate | cumple.py:91-97 | a result lies in year `y` and month `m` and has day `d`, except 29 February of a common year, which becomes 28 February |
| BirthdayDates.SafeDateOfReferenceDate | cumple.py:91-97 | for any day and month `parse_fecha_ddmmyy` accepts, `_safe_date` fails for no year in range and changes only 29 February of a common year |
| BirthdayDates.DaysUntilNext | cumple.py:99-105 | the year of the occurrence is this year or the next |
| BirthdayDates.DaysUntilNextIsNextOccurrence | cumple.py:83-105 | the result counts the days to an occurrence not before today, between 0 and 365, zero exactly when it is today; it is this year's exactly when this year's is not past |
| BirthdayDates.TodayCountdown | cumple.py:99-102 | a birthday that falls today is 0 days away, in this year |
| BirthdayDates.DaysUntilNextDefined | cumple.py:99-105 | for an accepted day and month the count fails only when next year's occurrence would be after 9999 |
| BirthdayDates.CountdownWithinYear | cumple.py:101-102 | an occurrence later this year is 0..365 days away, 0 exactly when it is today |
| BirthdayDates.OccurrencesOneYearApart | cumple.py:103-105 | consecutive occurrences, the 28 February fallback included, are at most 366 days apart |
| Sheet.IndexOf | cumple.py:238 | `headers.index(x)`: the first position holding `x` |
| Sheet.RecordField | cumple.py:289-292 | `row.get(key, "")`: the cell under a header cell equal to `key`, or "" when there is none |
| Sheet.LastIndexOfIsLast | cumple.py:269 | a record takes a repeated column's value from its last occurrence |
| Sheet.Worksheet.UpdateCell | cumple.py:248 | `update_cell` writes one cell and leaves every other cell as it was |
| SentLedger.AlreadySentMeaning | cumple.py:225-232 | a year counts as sent exactly when the cell has a value in whose stripped text `str(year)` stands as a whole token: a comma, whitespace or an end of the text on each side, so not as part of a longer number |
| SentLedger.TokenIffDelimited | cumple.py:231 | a non-empty string without commas or whitespace is one of the tokens exactly when it occurs with a comma, whitespace or an end of the text on each side |
| SentLedger.PieceOffset | cumple.py:231 | every piece of a split occurs in the string between separators or ends, at the index returned |
| SentLedger.MarkedValue | cumple.py:241-247 | the value written holds the year. It is the cell itself when the year is already a substring, the cell plus `,year` when the cell is not blank, the year alone otherwise |
| SentLedger.MarkedValueIdempotent | cumple.py:241-248 | marking twice with the same year writes what marking once writes |
| SentLedger.MarkThenCheck | cumple.py:231-232 | after marking a cell that lacked the year, `ya_enviado_en_anio` reports the year as sent |
| SentLedger.SentYearIsSubstring | cumple.py:232 | a year reported as sent also occurs as a substring, so marking it again changes nothing |
| SentLedger.SubstringMarkDisagrees | cumple.py:231-232 | with the cell `"12025"`, 2025 is reported as not sent, yet marking it writes the cell back unchanged |
| SentLedger.MarkSent | cumple.py:235-248 | fails, with nothing written, exactly when the header has no `Enviado`; otherwise the row's `Enviado` cell (first such column) becomes its marked value and nothing else changes |
| Messaging.BuildMessage | cumple.py:254-260 | the message starts with the title line and ends with the closing line |
| Messaging.MessageIsJoinedLines | cumple.py:254-260 | the message is its five lines (title, person, date, blank, closing) joined by line breaks |
| Messaging.MessageLines | cumple.py:254-260 | when name, role and date hold no line break, splitting the message on line breaks gives exactly those five lines |
| Messaging.MessageNamesPerson | cumple.py:257 | the name and then the role sit at fixed offsets on the second line |
| Messaging.DisplayDateFields | cumple.py:312 | for a day and month below 100 the date is `dd/mm/year`: `int()` reads the day from its first two characters, the month from the two after the first slash, and the year from everything after the second slash |
| Messaging.DisplayDateRoundTrip | cumple.py:312 | the date shown parses back, through `parse_fecha_ddmmyy`, to the day and month it was built from, whatever the year |
| Messaging.ParseRecipients | cumple.py:44-46 | every entry is non-empty, has no surrounding whitespace and holds no comma |
| Messaging.RecipientsAreNonBlankPieces | cumple.py:44-46 | an entry is listed exactly when it is the non-empty strip of some comma-separated piece |
| Messaging.RecipientsOfJoin | cumple.py:44-46 | a list of well-formed numbers joined with commas reads back as the same list |
| Messaging.RecipientsConcat | cumple.py:44-46 | two settings joined by a comma list the recipients of both, in order |
| Messaging.DefaultRecipientsList | cumple.py:44-46 | without the setting the list is the single default number |
| Dispatch.Schedule | cumple.py:289-306 | a record is passed over exactly when it has no name or no date. An unparseable date carries the parser's error. A due record's date parses to the plan's day and month, and its count is inside the window; a count outside the window is reported as such |
| Dispatch.PlanFields | cumple.py:289-310 | a record is passed over exactly when it has no name or no date; a due record is announced only when the ledger lacks the year and skipped only when the ledger holds it |
| Dispatch.MessageOf | cumple.py:311-313 | a message is built exactly for an announced record, and it starts with the title line |
| Dispatch.ScheduleDue | cumple.py:294-306 | a due record has a name and a date that parses; it is counted to the next occurrence of that date, inside the window |
| Dispatch.DueSchedule | cumple.py:294-306 | conversely, a named record whose date parses and falls inside the window is due |
| Dispatch.PlanDue | cumple.py:294-310 | a due record is announced exactly when the ledger does not hold the occurrence's year, and skipped otherwise |
| Dispatch.PlanOfSchedule | cumple.py:306-310 | the ledger check keeps the count and year and changes only a due record |
| Dispatch.EmptyLedgerPlan | cumple.py:308 | an empty ledger never skips a record |
| Dispatch.NotifyMessage | cumple.py:312-313 | an announced record's message names its person and role, and shows a date that parses as the record's own, with the occurrence's year after the second slash |
| Dispatch.BirthdayTodayIsDue | cumple.py:304-306 | a named record whose date is today's day and month is due today, count 0, this year |
| Dispatch.LeapDayScenario | cumple.py:91-97 | a 29 February birthday on 28 February 2025, window 3, empty ledger: announced now for 2025, shown as `29/02/2025` |
| Dispatch.Run | cumple.py:266-331 | no records ends the run with nothing sent; a missing column raises with nothing sent. Otherwise the sheet, the sends and the counters are those the specification functions give, up to the first record whose date is out of range |
| Dispatch.RunRecords | cumple.py:288-331 | the loop leaves the rows, the sends and the counters as `RowsAfter`, `Log`, `SentCount` and `SkippedCount` say. It stops at the first record out of range |
| Dispatch.Step | cumple.py:288-329 | one turn handles record k and keeps the loop invariant, or stops, changing nothing, at a record out of range |
| Dispatch.HandleRecord | cumple.py:289-329 | the record's plan, its sends, and its row marked exactly when it was announced, a send went through and marking did not fail |
| Dispatch.SendToAll | cumple.py:315-319 | every recipient is sent the message in order, and the record counts as delivered when any send went through |
| Dispatch.SendsOnlyForNotifiedRows | cumple.py:306-319 | every send is for an announced record, with its message and row, to a configured recipient |
| Dispatch.AlreadySentRowsGetNoSend | cumple.py:308-310 | a record not announced, such as one already sent this year, gets no send |
| Dispatch.NotifiedRowsReachEveryone | cumple.py:316-317 | an announced record is sent to every recipient |
| Dispatch.CountsBound | cumple.py:285-325 | `enviados + omitidos` never exceeds the records handled |
| Dispatch.LedgerChangesOnlyOnDelivery | cumple.py:321-325 | a row changes only in its ledger cell, only when announced and delivered, and a marked row's cell then holds the year |
| Dispatch.MarkedFields | cumple.py:248 | marking leaves a record's name, role and date as they were |
| Dispatch.ReplanAfterMark | cumple.py:308 | after marking, the same record on the same day is skipped exactly when its old ledger did not contain the year as text |
| Dispatch.SecondRunSkips | cumple.py:269-324 | a record the run marked is skipped by a second run on the same day exactly when its cell did not already contain the year as text |

## Left out

- The browser and WhatsApp are not part of this model: `construir_driver`, `asegurar_sesion_whatsapp`, `enviar_whatsapp`, the URL built with `quote()`, `clear_profile_locks`. The outcome of each send is the oracle `delivered(i, j)`.
- `time.sleep` pauses, the printed log lines and `driver.quit()` are left out; they change no state the model keeps.
- Credentials, `abrir_worksheet` and the Google Sheets network calls are left out. The worksheet is a `Worksheet` object whose rows are the records, and a failing `update_cell` is the oracle `markFails(i)`.
- `dt.date.today()` is the parameter `Setup.today`. `DIAS_VENTANA` and `NUMEROS_DESTINATARIOS` are the parameters `Setup.window` and `Setup.recipients`; `Messaging.ParseRecipients` models how the list is built from the setting.
- pandas is left out. `get_all_records`/`DataFrame` are modelled as the header row plus rectangular data rows of text. Cells that the client returns as numbers, and the `float("nan")` test, are not modelled.
- `int()` on non-ASCII Unicode digits is not modelled: only ASCII digits, an optional sign and single underscores are accepted.
- The spreadsheet client's version is fixed by assumption: a repeated header is read as in older gspread releases, where `get_all_records` takes the last column of that name (`Sheet.LastIndexOfIsLast`). Newer releases raise on duplicate headers; that error is not modelled.
- With two `Enviado` columns the source reads the last one (`get_all_records`) but writes the first (`headers.index`), so the mark is not seen and a second run announces the birthday again. `Dispatch.MarkedFields` and `Dispatch.SecondRunSkips` require a single `Enviado` column and do not cover that case.
- Exceptions other than those the source raises on purpose are not modelled. Those modelled: an invalid date, a missing column, a year out of range in `dias_hasta_proximo`, and a failed mark.
- `app.py` (the HTTP trigger and its single-run guard) is not part of this model.
