# ICMS-PI branch spreadsheet extraction and ICMS Normal batch — a Dafny model

This project models the core of a desktop tool for the Piauí state tax portal
(SEFAZ-PI, DAR Web). The tool has three parts, and the model covers each one.

1. **Branch spreadsheet extraction** (`src/icms_pi/excel_filiais.py`).
   A worksheet is modelled as its rows. A row is a sequence of cells, and a
   cell is empty, an integer, a float (an exact decimal), a date-time stamp or
   a string.
   - The header row is found by a fuzzy match on the state-registration (I.E.)
     column name.
   - The header is mapped to a column-name dictionary.
   - The reference month and year are read from the title area.
   - Data rows are walked until a footer row.
   - The I.E. is normalised to a zero-padded digit string.
   - The ATC, NORMAL and DIF. ALIQUOTA amounts are resolved with
     Brazilian-locale number reading.

   Python dictionaries are association lists that keep insertion order. A
   re-assigned key keeps its position, as in Python.
2. **The ICMS Normal batch** (`src/normal/automacao_sefaz_pi.py`).
   - The pure helpers are modelled: the invalid-amount test, the due date on
     day 15, and the past-due test with "today" as a parameter. Python's
     `int()` and `float()` of a text and the `repr` in `float()`'s error are
     modelled within the limits listed under "Left out".
   - `NormalAutomation` is a class with a session flag. Its `Run` method
     walks the items in order, through an abstract `Driver` object. The
     driver records every step it is asked to perform, and may fail any step
     with a message. The steps are browser start, navigation, menu clicks,
     form fills and the pause between submissions.
   - Every item is classified in the source's fixed order: bad period, empty
     I.E., invalid amount (skipped silently), past due date, then
     submission.
   - A failing form step records a reason of at most 80 characters, and the
     batch goes on with the next item.
   - A failure outside the per-item `try` ends the batch with that error.
     That covers the initial navigation and the pause-and-reload before a
     later submission.
   - The browser is closed exactly once at the end. A failure while closing
     is the batch's error, as an exception in `finally` replaces any other.
3. **Module-level helpers of the GUI** (`src/icms_pi/gui_app.py`). These are:
   - the process id ↔ label maps;
   - the readable process name;
   - I.E. display cleaning and interval formatting;
   - the executable/ignored count;
   - the per-process filter run before a batch;
   - the fixed-width table cell and the column-width clamp.

The dictionary keys and the user-visible messages are the source's own
Portuguese strings. The ATC and DIFAL validity checks live in modules outside
this model, so they are parameters (`atcInvalid`, `difalInvalid: Cell -> bool`).

The files are:

| file | module | contents |
|---|---|---|
| `wrappers.dfy` | Wrappers | `Option`, `Result` |
| `text.dfy` | Text | strip, lower case, accents, splitting, number texts |
| `values.dfy` | Values | `Cell`, `Decimal`, dates, dictionaries as association lists |
| `header.dfy` | Header | header normalisation, I.E. name match, header row, column map |
| `period.dfy` | Period | period text parsing, title-area scan |
| `rows.dfy` | Rows | footer test, I.E. normalisation, row records, the data-row walk |
| `amounts.dfy` | Amounts | number reading, amount keys, the first readable amount |
| `records.dfy` | Records | whole-sheet extraction, DAE records, I.E. list |
| `normal.dfy` | Normal | ICMS Normal validity, due date, item plans, driver, batch class |
| `gui.dfy` | Gui | the GUI helpers |

## Model

| member | source | states |
|---|---|---|
| Header.NormalizeTextShape | src/icms_pi/excel_filiais.py:55-63 | the normalised header has no upper-case letter, no dot, no leading or trailing whitespace and no run of spaces |
| Header.NormalizeHeader | src/icms_pi/excel_filiais.py:57-58 | an empty cell normalises to the empty string |
| Header.NormalizeUnstripped | src/icms_pi/excel_filiais.py:59-63 | stripping before the per-character steps changes nothing: normalising is collapsing the spaces of the lower-cased, accent-free, dot-free text |
| Header.NormalizeIgnoresCase | src/icms_pi/excel_filiais.py:60 | two texts equal up to case normalise alike |
| Header.NormalizeIgnoresDot | src/icms_pi/excel_filiais.py:62 | removing a dot anywhere does not change the normalised text |
| Header.NormalizeStripped | src/icms_pi/excel_filiais.py:59 | surrounding whitespace does not change the normalised text |
| Header.SynonymForms | src/icms_pi/excel_filiais.py:18-26 | the seven accepted I.E. header texts normalise to "inscestadual", "insc estadual", "ie" (three times) and "inscricao estadual" (twice) |
| Header.NormalizesToListed | src/icms_pi/excel_filiais.py:71-76 | a normalised text equals some synonym's normal form iff it is in the list of those forms |
| Header.MatchesIeNameExactly | src/icms_pi/excel_filiais.py:66-76 | the source's loop over the synonyms accepts exactly what the four-form test accepts; every synonym matches; an empty normalised text never matches |
| Header.MatchIgnoresCaseAndDots | src/icms_pi/excel_filiais.py:66-76 | the I.E. name match is unchanged by case changes and by inserting or removing a dot |
| Header.FindHeaderRow | src/icms_pi/excel_filiais.py:79-94 | the result is the first of the first 25 rows holding an I.E. name cell, or none when no row in that window holds one |
| Header.ColumnNameMeaning | src/icms_pi/excel_filiais.py:102-114 | a non-blank header cell is named by its stripped text; a missing or blank one is named "col_" followed by digits that read back as its column index |
| Header.LastIeColumn | src/icms_pi/excel_filiais.py:118-121 | the result is -1 iff no cell names the I.E. column; otherwise it is the last such column |
| Header.MapHeader | src/icms_pi/excel_filiais.py:97-124 | the loop builds the column map of the header row and the last I.E. column index, or -1 |
| Header.NameMapUnique | src/icms_pi/excel_filiais.py:107-117 | the map's keys are unique, it has at most one entry per column, and every value is a column index |
| Header.NameMapValue | src/icms_pi/excel_filiais.py:115-117 | the column a key holds chose that key (its name, or its name suffixed with `_` and its index), and no later column chose it |
| Header.NameMapLookup | src/icms_pi/excel_filiais.py:115-117 | every column's chosen key is in the map, at that column or a later one |
| Header.NameIsKey | src/icms_pi/excel_filiais.py:115-117 | every column name is a key of the final map |
| Header.HeaderMapDropsColumn | src/icms_pi/excel_filiais.py:115-117 | headers "a_2", "a", "a" map to [("a_2", 2), ("a", 1)]: column 0 is not in the map |
| Header.FirstIeKey | src/icms_pi/excel_filiais.py:334-339 | the first key naming the I.E. column, or none iff no key does |
| Header.IeColumnHasKey | src/icms_pi/excel_filiais.py:334-339 | a header row with an I.E. column yields a map with an I.E. key |
| Period.AsWrittenReadsNothing | src/icms_pi/excel_filiais.py:164-194 | the text parser as written reads no period from any text (see Findings) |
| Period.PrepareAscii | src/icms_pi/excel_filiais.py:165-167 | after preparation each `-` and `\` is a `/` and every other character is kept |
| Period.ReadsMonthYear | src/icms_pi/excel_filiais.py:179-184 | "M/Y" with 1-2 month digits and 2-4 year digits reads as (M, Y), two-digit years plus 2000 |
| Period.ReadsDate | src/icms_pi/excel_filiais.py:169-177 | "D/M/Y" reads as (M, Y); the day is discarded |
| Period.AbbreviationsShape | src/icms_pi/excel_filiais.py:36-49 | the twelve month abbreviations are distinct three-letter words |
| Period.OnlyOwnAbbreviation | src/icms_pi/excel_filiais.py:186-187 | "mmm/Y" contains no month abbreviation but its own |
| Period.MonthByNameFirst | src/icms_pi/excel_filiais.py:186-193 | the first abbreviation, in calendar order, that occurs in the text gives the month, and the last 2-4 digit number gives the year |
| Period.DigitGroupsOfRun | src/icms_pi/excel_filiais.py:188 | a run of 2-4 digits is the one number found in itself |
| Period.ReadsMonthName | src/icms_pi/excel_filiais.py:186-193 | "mmm/Y" and "mmm-Y" read as (the month's number, Y) |
| Period.ReadsJanuaryShortYear | src/icms_pi/excel_filiais.py:134 | "jan/26" reads as January 2026 |
| Period.ReadsJanuaryLongYear | src/icms_pi/excel_filiais.py:134 | "jan-2026" reads as January 2026 |
| Period.ReadsFullDate | src/icms_pi/excel_filiais.py:133 | "01/03/2026" reads as March 2026 |
| Period.FindPeriod | src/icms_pi/excel_filiais.py:127-161 | success gives the period of a title-area cell (rows 0-11, columns 0-29) with no readable cell before it in row-major order; failure is the no-period message and means no cell of the area is readable |
| Period.CellReadsPeriodText | src/normal/automacao_sefaz_pi.py:156 | the "MM/YYYY" text the form is filled with reads back as the same period |
| Rows.BlankRowIsFooter | src/icms_pi/excel_filiais.py:244-248 | a row of falsy cells ends the data |
| Rows.KeywordRowIsFooter | src/icms_pi/excel_filiais.py:249-259 | a row with a text cell containing, in lower case, a footer keyword ("total", "fim", "piaui", ...) ends the data |
| Rows.DigitsOf | src/icms_pi/excel_filiais.py:202 | the digits kept are all digits and no more than the text's length |
| Rows.NormalizeIe | src/icms_pi/excel_filiais.py:197-205 | the normalised I.E. is empty, or all digits and at least 9 long |
| Rows.NormalizeIePads | src/icms_pi/excel_filiais.py:201-205 | with digits present: the length is max(9, digit count), the digits come last and the padding is zeros |
| Rows.NormalizeIeIdempotent | src/icms_pi/excel_filiais.py:197-205 | normalising a normalised I.E. changes nothing |
| Rows.NormalizeIeOfNumber | src/icms_pi/excel_filiais.py:197-205 | a positive integer cell normalises to digits whose value is that integer |
| Rows.NormalizeIeExample | src/icms_pi/excel_filiais.py:197-205 | "123.456-7" normalises to "001234567" |
| Rows.RowRecordGet | src/icms_pi/excel_filiais.py:229-238 | a row record maps "ie_normalizada" to the row's normalised I.E. and every other map key to the cell at its column, or to an empty cell when the row is too short; other keys are absent |
| Rows.BuildRecord | src/icms_pi/excel_filiais.py:229-238 | the loop builds the row record |
| Rows.ExtractRows | src/icms_pi/excel_filiais.py:208-241 | the result holds the records of the rows after the header, in order, up to and excluding the first footer row or the end of the sheet |
| Amounts.AmountOf | src/icms_pi/excel_filiais.py:349-356 | an integer or float cell is its own amount; empty and date cells have none |
| Amounts.ReadsBrazilian | src/icms_pi/excel_filiais.py:352-354 | "1.234.567,89" (dot-grouped digits, comma, digits) reads as the decimal 1234567.89 |
| Amounts.ReadsDecimalText | src/icms_pi/excel_filiais.py:352-354 | the text of a decimal reads back as the same value |
| Amounts.FindAmount | src/icms_pi/excel_filiais.py:342-357 | the scan returns the amount of the first matching key whose value reads as a number |
| Amounts.FirstAmountNone | src/icms_pi/excel_filiais.py:342-357 | there is no amount iff no matching key has a readable value |
| Amounts.FirstAmountWitness | src/icms_pi/excel_filiais.py:342-357 | an amount comes from a matching, readable entry with no such entry before it |
| Records.ExtractAll | src/icms_pi/excel_filiais.py:262-295 | a missing header row fails with its message and a missing period with the other message; success gives the header map, the data rows after the header row and the first readable period of the title area |
| Records.MessagesDiffer | src/icms_pi/excel_filiais.py:279-281 | the no-header and no-period messages differ |
| Records.ReadTable | src/icms_pi/excel_filiais.py:283-286 | the column map and the data rows of a header row |
| Records.HeaderRowHasIeKey | src/icms_pi/excel_filiais.py:308-310 | a header row found by the scan always yields an I.E. key |
| Records.FindIeKey | src/icms_pi/excel_filiais.py:334-339 | the loop returns the first I.E. key |
| Records.BuildRecords | src/icms_pi/excel_filiais.py:298-331 | fails with the no-I.E.-column message iff no key names the I.E. column; otherwise one DAE record per row, in order |
| Records.DaesOf | src/icms_pi/excel_filiais.py:312-329 | one DAE record per row, same length and order |
| Records.BuildDaes | src/icms_pi/excel_filiais.py:312-329 | the loop builds the DAE records |
| Records.BuildDae | src/icms_pi/excel_filiais.py:313-329 | the record of one row: I.E. twice, the three amounts, the period and the row |
| Records.IeNormKeyIsNoAmount | src/icms_pi/excel_filiais.py:342-398 | the added "ie_normalizada" key is never read as an ATC, NORMAL or DIFAL amount |
| Records.AmountKeyExamples | src/icms_pi/excel_filiais.py:342-398 | "VALOR ATC", " NORMAL " and "DIF. ALIQUOTA" are ATC, NORMAL and DIFAL keys |
| Records.DaeIeOfRow | src/icms_pi/excel_filiais.py:314-321 | a record's I.E. is the row's normalised I.E.: empty, or at least 9 digits |
| Records.AmountFromColumn | src/icms_pi/excel_filiais.py:342-357 | a resolved amount is the reading of the cell at some matching column |
| Records.AmountAbsent | src/icms_pi/excel_filiais.py:342-357 | there is no amount iff no matching column's cell reads as a number |
| Records.RecordUnique | src/icms_pi/excel_filiais.py:229-238 | a row record's keys are unique |
| Records.IeTextsMeaning | src/icms_pi/excel_filiais.py:401-408 | the I.E. list is the comprehension keeping the non-blank stripped I.E.s: an in-order subsequence of the stripped I.E.s holding every non-blank one |
| Records.IesOf | src/icms_pi/excel_filiais.py:401-408 | the loop builds the I.E. list |
| Records.IeTextsFrom | src/icms_pi/excel_filiais.py:401-408 | every listed I.E. is the stripped I.E. of some record |
| Records.IeTextsAllKept | src/icms_pi/excel_filiais.py:401-408 | when no record's I.E. is blank, the list is every record's I.E., in order |
| Records.ExtractedIes | src/icms_pi/excel_filiais.py:401-408 | every I.E. listed from extracted rows is at least 9 digits |
| Normal.InvalidIsFalsy | src/normal/automacao_sefaz_pi.py:25-35 | except for strings, a value is invalid iff it is falsy; every falsy value is invalid |
| Normal.NormalValueExamples | src/normal/automacao_sefaz_pi.py:31-35 | "abc" is valid, " NULL " and 0.00 are invalid, 5 is valid |
| Normal.Truncate | src/normal/automacao_sefaz_pi.py:227-228 | `int()` of a float rounds towards zero |
| Normal.DueDatePassedIff | src/normal/automacao_sefaz_pi.py:38-50 | a month and year that make no date count as past due; otherwise past due iff the 15th of that month is strictly before today |
| Normal.DueDateStaysPassed | src/normal/automacao_sefaz_pi.py:43-50 | once past due, past due on every later day |
| Normal.DueDateTextReadsBack | src/normal/automacao_sefaz_pi.py:170 | the "DD/MM/YYYY" due-date text is 10 characters and reads back as the same period |
| Normal.Shorten | src/normal/automacao_sefaz_pi.py:286-287 | a reason is at most 80 characters; a short one is kept; a long one becomes its first 77 characters and "..." |
| Normal.FailureReason | src/normal/automacao_sefaz_pi.py:282-287 | the reason is at most 80 characters and has no line break; an empty message gives the default reason |
| Normal.IeDigitsEmptyIff | src/normal/automacao_sefaz_pi.py:235-237 | the digits test adds nothing to the empty-I.E. test |
| Normal.PlanReasons | src/normal/automacao_sefaz_pi.py:222-273 | missing period, empty I.E., invalid amount (skip) and past due, each iff the earlier checks passed; a submission has a valid, not yet due period, a valid amount and the item's I.E. digits |
| Normal.PlanSound | src/normal/automacao_sefaz_pi.py:222-250 | every item's plan has a non-empty I.E. and a reason of at most 80 characters |
| Normal.ReasonsDiffer | src/normal/automacao_sefaz_pi.py:229-249 | the three refusal reasons are distinct and at most 80 characters |
| Normal.Driver.Perform | src/normal/automacao_sefaz_pi.py:99-202 | a driver step is recorded and answered with the failure planned for its position, if any |
| Normal.CallsMeaning | src/normal/automacao_sefaz_pi.py:263-273 | awaited steps complete iff none of their calls fails; otherwise the failure is the answer to the last call made and every earlier call succeeded |
| Text.IntIgnoresUnderscore | src/normal/automacao_sefaz_pi.py:227-228 | `int()` reads digits with an underscore between two digit runs as the digits without it |
| Text.Repr | src/normal/automacao_sefaz_pi.py:272 | `repr` of a text is quoted with one kind of quote at both ends and holds no line break |
| Text.ReprPlain | src/normal/automacao_sefaz_pi.py:272 | a text of printable characters without quotes or backslashes is shown as it is, in single quotes |
| Normal.FloatErrorReason | src/normal/automacao_sefaz_pi.py:272-287 | a text `float()` refuses fails the form with "could not convert string to float: " and its repr, and the reason recorded is that whole message, shortened |
| Normal.FormTexts | src/normal/automacao_sefaz_pi.py:154-190 | the form's period and due-date texts read back as the item's period, and the amount step fails iff the value is not a number |
| Normal.FormShape | src/normal/automacao_sefaz_pi.py:263-273 | the form starts with the ICMS menu click, and a completed form ends with the amount and the calculate click |
| Normal.SubmissionPauses | src/normal/automacao_sefaz_pi.py:254-264 | a submission at input index > 0 starts with the pause; at index 0 it starts with the menu click |
| Normal.ProcessAdds | src/normal/automacao_sefaz_pi.py:222-291 | an item adds at most one outcome; only a submission contacts the driver; a skipped item changes nothing; a refusal adds exactly its I.E. and reason; an aborted batch is left as it is |
| Normal.AbortStays | src/normal/automacao_sefaz_pi.py:254-261 | once the batch aborts, later items change nothing |
| Normal.ProgressBounds | src/normal/automacao_sefaz_pi.py:214-292 | after i items the outcomes number at most i, successes are non-empty I.E.s and reasons are at most 80 characters |
| Normal.ProcessDoneIff | src/normal/automacao_sefaz_pi.py:254-291 | an item adds its I.E. to the successes iff it is submitted and the pause, the reload and every form step go through; otherwise the successes are unchanged |
| Normal.ProcessCompletes | src/normal/automacao_sefaz_pi.py:254-291 | a completed item adds no error and does not end the batch; a submitted item that does not complete ends the batch or adds one error under its I.E. |
| Normal.DoneCompleted | src/normal/automacao_sefaz_pi.py:222-291 | after i items the successes are exactly the I.E.s of the items that completed, in input order |
| Normal.CompletedSubmitted | src/normal/automacao_sefaz_pi.py:222-291 | the completed items' I.E.s are an in-order subsequence of the submitted items' I.E.s |
| Normal.SessionResult | src/normal/automacao_sefaz_pi.py:218-301 | a run succeeds iff neither opening, nor a pause or reload, nor a screenshot, nor closing failed, and then reports the batch's two lists |
| Normal.SessionDone | src/normal/automacao_sefaz_pi.py:214-301 | the I.E.s a successful run reports as done are exactly those of the items that completed after the session opened, in input order, and so an in-order subsequence of the submitted items' I.E.s |
| Normal.SessionShape | src/normal/automacao_sefaz_pi.py:218-301 | the session launches once first and shuts down once last; a result has at most one outcome per item |
| Normal.NormalAutomation.StartBrowser | src/normal/automacao_sefaz_pi.py:67-77 | the session is open and the open steps are performed |
| Normal.NormalAutomation.CloseBrowser | src/normal/automacao_sefaz_pi.py:79-86 | the session is closed with one shutdown step |
| Normal.NormalAutomation.FillForm | src/normal/automacao_sefaz_pi.py:263-273 | the form steps are performed up to the first failure |
| Normal.NormalAutomation.SubmitForm | src/normal/automacao_sefaz_pi.py:263-291 | a completed form records the I.E. as a success; a failing step records the shortened reason |
| Normal.NormalAutomation.Prepare | src/normal/automacao_sefaz_pi.py:254-261 | the pause and the reload come before every submission but the first item's |
| Normal.NormalAutomation.Submit | src/normal/automacao_sefaz_pi.py:254-291 | preparation then the form; a failing preparation aborts the batch |
| Normal.NormalAutomation.ProcessItem | src/normal/automacao_sefaz_pi.py:222-291 | one item is handled by its plan |
| Normal.NormalAutomation.Run | src/normal/automacao_sefaz_pi.py:204-301 | the driver's steps and the result are those of the session; the browser is closed at the end |
| Gui.DictOfUnique | src/icms_pi/gui_app.py:32 | a dictionary built from pairs with distinct keys is those pairs |
| Gui.InverseRoundTrip | src/icms_pi/gui_app.py:40 | the swapped map sends each value back to its key, and the key back to the value |
| Gui.ShortLabelsRoundTrip | src/icms_pi/gui_app.py:35-40 | label→id→label and id→label→id are identities; "Normal" is the normal process |
| Gui.ReadableProcessName | src/icms_pi/gui_app.py:47-48 | a known id gets a name different from the id; an unknown id is its own name; "normal" is "ICMS Normal PI" |
| Gui.IeForDisplay | src/icms_pi/gui_app.py:51-55 | none gives ""; otherwise the characters shown are those of the stripped I.E. other than `.`, `-` and `/` |
| Gui.DisplayNormalizedIe | src/icms_pi/gui_app.py:51-55 | a normalised I.E. is displayed unchanged |
| Gui.IntervalTextMeaning | src/icms_pi/gui_app.py:58-63 | the text is whole minutes from 60000 ms, whole seconds from 1000 ms and milliseconds below, rounding down; the number reads back |
| Gui.ExecutableForNormal | src/icms_pi/gui_app.py:66-74 | an unknown process is not executable; for "normal" an executable item is one the batch does not skip, and a non-executable one is never submitted |
| Values.FilterMeaning | src/icms_pi/gui_app.py:110-123 | a filtered list is an in-order subsequence of the kept items that holds every kept item |
| Gui.CountMeaning | src/icms_pi/gui_app.py:84-88 | counted items are the filter's length, and kept plus not kept is the whole list |
| Gui.CountExecutableIgnoredMeaning | src/icms_pi/gui_app.py:77-88 | executable plus ignored is the list's length; executable counts the items valid for some chosen process; no process list means "antecipado" |
| Gui.SelectedIsFilter | src/icms_pi/gui_app.py:108-123 | a process's list is the in-order subsequence of the items valid for it |
| Gui.SelectedTotalBound | src/icms_pi/gui_app.py:125 | the total is at most the process count times the item count |
| Gui.PerProcessLists | src/icms_pi/gui_app.py:102-125 | each chosen known process gets the list of its valid items, other ids get nothing, and the total is the sum of the chosen processes' list lengths |
| Gui.Cel | src/icms_pi/gui_app.py:228-230 | for widths of 2 or more the cell is exactly the width; a longer text is cut to width-2 characters plus ".."; a shorter one is padded with spaces |
| Gui.LargestMeaning | src/icms_pi/gui_app.py:220-223 | the widest of the measured values is at least each of them and one of them |
| Gui.ColumnWidthMeaning | src/icms_pi/gui_app.py:216-226 | the width is in 4..30; it fits the header and each of the first 100 rows' values unless capped at 30; above 4 it is the cap, the header's length or some value's length |
| Gui.HeaderShownWhole | src/icms_pi/gui_app.py:216-234 | a header of at most 30 characters is shown whole in its column |
| Gui.WidenColumn | src/icms_pi/gui_app.py:218-226 | one column's width is widened to its values and capped; the others are unchanged |
| Gui.ColumnWidths | src/icms_pi/gui_app.py:216-226 | one width per column, each the clamped width of that column |
| Gui.DaeItem | src/icms_pi/excel_filiais.py:316-328 | a DAE record as a dictionary item has distinct keys |
| Gui.DaeItemPlan | src/icms_pi/excel_filiais.py:316-328 | an extracted item never misses its period; with an I.E. it is skipped iff its NORMAL amount is missing or zero, and it is executable for "normal" iff it is not |

## Left out

- Workbook loading and the openpyxl worksheet API (excel_filiais.py:272-278). The sheet is a sequence of rows of cells.
- Playwright, the browser, page selectors, timeouts and the page helpers the batch imports. Each browser action is one abstract driver step that succeeds or fails with a message.
- src/normal/configuracoes.py is not part of this model. The portal URL and selectors are not modelled. The interval between submissions is a class field.
- The pause (`asyncio.sleep`) is a `Pause` driver step. Event loops, threads, the window, message boxes and traces of the GUI are not modelled.
- The screenshot taken after a form failure is one `Capture` driver step; its time-stamped file name is not modelled. Logging is not modelled.
- `date.today()` is a parameter of the batch.
- The 3-list mode of the per-process filter (a precomputed `lista_por_processo`) is not modelled. `Gui.PerProcessLists` always filters.
- The ATC and DIFAL validity checks come from modules outside this model. They are parameters.
- Python `float()` is modelled by an exact-decimal grammar: optional sign, digits, optional fraction and exponent. `nan`, `inf`, underscores and binary rounding are not modelled.
- `str()` of a float is an exact decimal text. Python's shortest-repr digits and exponent notation are not modelled.
- Boolean cells are not modelled: the cell kinds are empty, integer, float, date-time and string.
- Digit tests and `int()` accept the ASCII digits only. Other Unicode decimal digits are not modelled.
- Repr: characters above U+00FF that Python does not print (which it shows as `\u` or `\U` escapes) are kept as they are. Below U+0100 the escapes are Python's.
- DueDatePassed: a month or year outside the C `int` range makes `date()` raise OverflowError rather than ValueError. In the source that exception escapes the batch after the browser is closed; the model counts such a period as past due and goes on. The extraction never yields such a period.
- Accent stripping covers the Latin-1 letters with accents and the combining marks U+0300–U+036F, not full Unicode decomposition.
- Gui.DaeItem: the "dados_originais" entry, the whole source row, is not carried into the item, because no modelled helper reads it.
- Gui.ReadableProcessName: states the known/unknown split and the normal process's name, not each of the three names.
- The column map's docstring says every column is mapped. The code can drop one when a suffixed name collides with a real header, as `Header.HeaderMapDropsColumn` shows. The model follows the code.

## Findings

| source | as written | input that shows it | evidently intended | confidence | as-written member | corrected member |
|---|---|---|---|---|---|---|
| src/icms_pi/excel_filiais.py:169-170 | the date and month/year patterns are raw strings containing `\\d`, which match a backslash followed by `d`; every backslash was already replaced by `/` (line 167), so they never match | "01/03/2026", "03/2026" | `\d` as a digit class, so "01/03/2026" and "03/2026" read as March 2026, as the docstring at lines 132-134 says | high, not executed | Period.AsWrittenReadsNothing | Period.ReadsDate |
| src/icms_pi/excel_filiais.py:188 | the year pattern `\\d{2,4}` after a month abbreviation never matches, so no month-name text yields a period | "jan/26", "jan-2026" | the last 2-4 digit number is the year, so "jan/26" reads as January 2026 | high, not executed | Period.AsWrittenReadsNothing | Period.ReadsMonthName |
