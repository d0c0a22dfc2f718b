# Car availability dashboard: the pure core

The dashboard keeps one spreadsheet per rental car in a folder. Cell I3 of
each workbook holds the day the car was last reserved, and cell I4 holds
the day it is available again. A background job rebuilds an in-memory
status cache from the folder every five minutes. Each workbook gets a
record with both dates and an `available` flag, or the error that reading
it raised. An edit form writes new dates back to the two cells.

This project models the deterministic part of that cycle in Dafny. The
clock, the directory listing and the workbook contents are parameters.

- **Calendar** (`calendar.dfy`): the dates and date-times of Python's `datetime`.
  Validity covers years 1 to 9999 and the Gregorian leap-year rule.
  Date-times are compared field by field, the way Python does it.
- **DateText** (`date_text.dfy`): the string branch of `parse_date`. It tries
  `%Y-%m-%d`, `%d.%m.%Y` and `%d-%m-%Y` in that order.
  - Each directive accepts the language of the regular expression that
    CPython's `_strptime` compiles for it. `%Y` is exactly four digits.
    `%m` is `1[0-2]|0[1-9]|[1-9]`. `%d` is `3[01]|[12]\d|0[1-9]|[1-9]| [1-9]`.
  - So months and days may have one or two digits, and a day may also be
    padded with a space (`" 5.01.2024"` parses).
  - The whole string must be consumed, and the fields must name a real
    date. Otherwise `strptime` raises and the next format is tried.
  - `FormatDotted` models `strftime("%d.%m.%Y")`.
- **DateTextFacts** (`date_text_facts.dfy`): what that grammar guarantees.
  It states exactly which strings parse and to what. The three formats
  never both accept the same string, and they agree on the date that the
  same fields name. Impossible dates are refused. The write format reads
  back as the date it was rendered from.
- **Cells** (`cells.dfy`): `parse_date` on any value. A `datetime` passes
  through unchanged. A string goes through the grammar and yields midnight
  of the parsed day. Anything else (`None`, numbers, ...) yields no date.
- **CarStatus** (`car_status.dfy`): `check_car_availability`.
  - The file-name filter keeps names that end in `.xlsx` and do not start
    with `~$`.
  - A car is available when its "available again" date is present and
    `now` has reached it.
  - Each file gets a record, or an error-only record when its read fails.
  - The rebuild starts from an empty map. `Rebuild` is the functional
    definition and `CheckCarAvailability` is the loop, proved equal to it.
- **EditForm** (`edit_form.dfy`): the write half of `edit_file`. Each submitted
  field is parsed. The cell gets its `DD.MM.YYYY` rendering, or is emptied
  when the field is absent or does not parse.

`available` is not a plain boolean. The code stores the value of
`available_again and ...`, which is `None` when there is no "available
again" date. The model therefore keeps it as `Option<bool>` and states both
when it is `None` and when it is truthy.

Other modelling choices:

- `strftime("%Y")` is modelled as zero-padded to four digits, as current
  CPython renders it. Older CPython builds on Linux wrote years below 1000
  without padding.
- A listing may name a file twice. The later entry's record then wins, as
  with repeated assignment to a dict key. A real directory listing names
  each file once, and `RebuildDistinct` covers that case.

## Model

| member | source | states |
|---|---|---|
| Calendar.DaysInMonth | app.py:23 | month lengths 28 to 31; February has 29 days exactly in Gregorian leap years; 30-day months are April, June, September and November |
| Calendar.DaysInYear | app.py:23 | the month lengths that `strptime` validates against add up to 366 in a leap year and 365 otherwise |
| Calendar.BeforeIsStrictTotalOrder | app.py:44 | the field-by-field datetime comparison behind `now >= available_again` is irreflexive, asymmetric, transitive and total |
| DateText.Strptime | app.py:23 | one format either fails or yields a valid calendar date |
| DateText.ParseText | app.py:20-26 | the result is valid and is the result of one of the three formats; `None` means all three formats fail |
| DateText.FormatDotted | app.py:89-90 | the rendering is ten characters: two digits, a dot, two digits, a dot, four digits |
| DateTextFacts.MonthTokenRange | app.py:21 | the `%m` regex alternatives accept exactly the one- or two-digit spellings of 1 to 12 |
| DateTextFacts.DayTokenRange | app.py:21 | the `%d` regex alternatives accept exactly the one- or two-digit spellings of 1 to 31, plus a space-padded digit |
| DateTextFacts.StrptimeOwnSpelling | app.py:21-23 | a format parses its own spelling of valid fields to the named date, or fails when that date does not exist |
| DateTextFacts.StrptimeOtherSpelling | app.py:21-25 | no format accepts another format's spelling, so the three formats are mutually exclusive |
| DateTextFacts.ParseSpelled | app.py:21-26 | any of the three spellings of valid fields parses to the named date, and to `None` exactly when that date does not exist |
| DateTextFacts.ParsedIsSpelled | app.py:21-26 | every string that parses is one format's spelling of valid fields naming the resulting valid date |
| DateTextFacts.ParseTextCharacterized | app.py:20-26 | a string parses to `d` if and only if it spells `d` in one of the three formats and `d` is a real date |
| DateTextFacts.FormatInvariance | app.py:21-25 | the `YYYY-MM-DD`, `DD.MM.YYYY` and `DD-MM-YYYY` spellings of the same fields give the same result |
| DateTextFacts.InvalidDateRejected | app.py:21-25 | a spelling that names a day the month lacks parses to `None` in every format |
| DateTextFacts.ThirtiethOfFebruaryRejected | app.py:21-25 | no spelling of 30 February parses, in any of the three formats and any year |
| DateTextFacts.LeapDay | app.py:21-25 | a spelling of 29 February parses if and only if its year is at least 1 and a Gregorian leap year |
| DateTextFacts.IsoRewrittenExamples | app.py:82-90 | `2024-01-05` and `2024-01-10` parse and are rendered as `05.01.2024` and `10.01.2024` |
| DateTextFacts.FormatDottedFields | app.py:89-90 | the three digit groups of the rendering denote the date's day, month and year |
| DateTextFacts.FormatThenParse | app.py:89-90 | rendering any valid date as `DD.MM.YYYY` and parsing it back yields that date |
| DateTextFacts.ParseThenFormat | app.py:89-90 | a zero-padded `DD.MM.YYYY` string parses, and rendering the result gives the same string back |
| Cells.ParseDate | app.py:16-26 | a datetime is returned unchanged; `None` and non-string values give no date; a string gives midnight of the date it parses to, and no date when it does not parse |
| Cells.ParseDateOfText | app.py:20-26 | a string yields instant `t` if and only if `t` is a midnight whose date the string spells in one of the three formats |
| CarStatus.EligibleShape | app.py:34 | a name is scanned if and only if it is some stem followed by `.xlsx` and is not `~$` followed by anything |
| CarStatus.EligibleExamples | app.py:34 | the filter is case-sensitive and skips `~$` lock files even when they end in `.xlsx` |
| CarStatus.Availability | app.py:44 | `available` is `None` exactly when there is no available-again date, and truthy exactly when that date is present and `now` is at or after it |
| CarStatus.AvailabilityPersists | app.py:44 | a car that is available at some instant is still available at every later instant |
| CarStatus.RecordOf | app.py:36-52 | a failed read gives an error-only record carrying the message; a successful read gives the parsed I3 and I4 cells, with `available` `None` exactly when I4 gives no date and truthy exactly when `now` has reached that date |
| CarStatus.Rebuild | app.py:31-54 | the rebuilt cache's keys are exactly the eligible names of the listing |
| CarStatus.RebuildAt | app.py:33-54 | each eligible file's entry is the record of its own read |
| CarStatus.RebuildOrigin | app.py:31-54 | every cache entry comes from an eligible listing entry with that name and is that entry's record, so nothing from before the rebuild survives |
| CarStatus.RebuildDistinct | app.py:33-54 | for a listing without repeated names, every eligible file maps to the record of its own read |
| CarStatus.FailureIsolated | app.py:37-54 | when one file's read fails, its record becomes the error alone; the key set and every other file's record are unchanged |
| CarStatus.CheckCarAvailability | app.py:28-54 | the loop clears the cache and stores one record per eligible name; no eligible file gives an empty cache; the result equals `Rebuild` whatever the previous cache held |
| EditForm.WrittenValue | app.py:82-90 | a field that does not parse writes an empty cell; one that parses writes exactly the `DD.MM.YYYY` rendering of its date, which parses back to that date |
| EditForm.ApplyEdit | app.py:82-90 | both cells are overwritten with the written values as text or as empty cells, whatever they held before; each reads back as exactly the date its field parsed to, and is empty when the field did not parse |
| EditForm.WriteThenRead | app.py:89-90 | the written cell, read back through `parse_date`, gives the submitted field's date |
| EditForm.BlankClears | app.py:82-90 | a blank field and a missing field both leave their cells empty |
| EditForm.SpelledFieldRewritten | app.py:82-90 | any accepted spelling, padded or not, is written back as the `DD.MM.YYYY` rendering of the date it names, and a spelling of a non-existent date empties the cell |
| EditForm.PaddedFieldRewritten | app.py:82-90 | a zero-padded date in any of the three formats is written back as the same fields in `DD.MM.YYYY` |
| EditForm.EditExample | app.py:82-90 | submitting `2024-01-05` and `2024-01-10` writes `05.01.2024` and `10.01.2024` |
| EditForm.EditThenRescan | app.py:82-93 | when a file's read returns the edited cells, the next scan stores exactly the submitted dates for that file, with availability judged against the new date |

## Left out

- Flask routes, templates and redirects (app.py:61-100) are web plumbing. Of
  `edit_file`, only the computation of the two cell values is modelled. The
  404 answer for a missing file (app.py:73-74) happens before anything is
  read or written.
- openpyxl loading and saving (app.py:38-39, app.py:86-92) is a foreign
  library and file I/O. A workbook read is an input `Result` of the two
  cells or the exception message. The 500 answer on a failed save is not
  modelled.
- `os.listdir`, `os.makedirs` and the fixed folder path (app.py:10-11,
  app.py:33) are filesystem I/O. The listing is an input sequence.
- The scheduler (app.py:56-59) and the unlocked race between the timer and
  request threads on the global cache are concurrency. The model returns a
  fresh map instead of clearing a shared one in place.
- CarStatus.CheckCarAvailability: takes one `now` for the whole scan. The
  source reads the clock again for every file.
- Exception messages are opaque strings. Their text is not modelled.
- DateText.ParseText: accepts only ASCII digits. Python's `\d` also matches
  other Unicode decimal digits, which the model does not follow.
- Cells.ParseDate: every cell value that is neither `None`, a string nor a
  `datetime` is one `OtherValue` case. The source treats all such values
  alike.
