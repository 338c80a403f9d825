# PreencheDiario-UFU record engine, in Dafny

This project models the record engine of PreencheDiario-UFU, a desktop helper
that fills in a teacher's class diary on the UFU portal. The program keeps the
diary as a set of records. Each record is a lesson text filed under a key of the
form `DD/MM/YYYY -<suffix>`, where the suffix is `T` for a theory lesson and
`P` for a practice lesson. The model covers the three parts of the program that
produce or change these records:

- **Key normalisation and batch validation** (`services/utils.py`, module
  `Utils`). `normalize_label` rewrites a loosely written label into the
  canonical key. `validate_value_map` splits a JSON batch into the accepted
  records and the errors, by raw key. `preview_text` gives the one-line preview
  of a lesson text.
- **Bulk date shifting** (`features/date_shift.py`, module `DateShift`). It
  reads the date and the suffix out of a key and shifts the date by days,
  months or years; the day is clamped to the end of the target month. It
  re-keys a whole record set, optionally only its theory or practice lessons,
  and counts what it changed, skipped, filtered and overwrote. The result is
  sorted by key.
- **Spreadsheet import** (`features/excel_import.py`, module `ExcelImport`). It
  finds the header row of a worksheet by its accent-folded column titles. It
  then reads a date, a modality and a text from every row below the header,
  files each row under `DD/MM/YYYY -T` or `DD/MM/YYYY -P`, and hands the batch
  to the validator.

The supporting modules model the Python behaviour this code relies on:

- `Text`: `str.isspace`, `strip`, `re.sub(r"\s+", " ", …)`, `zfill`, `in`,
  `startswith` and string order.
- `Dict`: an insertion-ordered `dict` as a sequence of pairs, plus `sorted`
  by key.
- `Calendar`: `datetime.date` for the years 1 to 9999, adding a `timedelta`
  of days, and `%d/%m/%Y`.
- `LooseDate`: the `(\d{1,2})/(\d{1,2})/(\d{2,4})` date token shared by the
  normaliser and the importer, with its `"20"`-prefix year rule.
- `Wrappers`: `Option` and `Result`.

The loops of `shift_value_map`, `validate_value_map`,
`find_header_row_and_map` and `process_worksheet` are methods with loop
invariants. Each is proved equal to a recursive specification function, and
the lemmas state what the source promises about those functions.

Exceptions the source can raise are error results, not preconditions:

- `suffix_letter` raises `IndexError` on a suffix that is only whitespace.
- `datetime.date` raises `OverflowError`/`ValueError` when a shifted date
  leaves the years 1 to 9999.

Both end `shift_value_map`. The model returns `Failure(EmptySuffix)` or
`Failure(DateOutOfRange)` for them, and `DateShift.ShiftFails` says exactly
when this happens.

Three consequences of the code are worth stating outright:

- **A month shift moves every key by the same number of months.** Dates whose
  day needs no clamping stay distinct (`DateShift.MonthShiftKeepsApart`, from
  `DateShift.AddMonthsBack`): `01/03/2024 -T` and `01/04/2024 -T` shifted by one
  month become `01/04/2024 -T` and `01/05/2024 -T`. Days clamped to a shorter
  month can merge: `30/01/2024 -T` and `31/01/2024 -T` both become
  `29/02/2024 -T` (`DateShift.ClampMerges`), and the second write counts in
  `overwritten_in_lot`.
- **Pass-through keys never clash with moved keys.** A moved key is always
  written as `DD/MM/YYYY -<suffix>`, and a key copied through unchanged never
  has that exact form (`DateShift.PassThroughNeverCollides`). So for a record
  set, `|result| + overwritten_in_lot` is exactly the number of entries
  (`DateShift.ShiftSizeExact`). This rests on `strftime("%Y")` writing four
  digits, which holds for years 1000 and up. For earlier years some C
  libraries write fewer digits, and that case is not modelled.
- **Accents and case in a header do not matter.** Headers are accent-folded
  and lower-cased before the comparison, so a cell reading `Descrição` or
  `DESCRIÇÃO` normalises to `descricao` and names the text column
  (`ExcelImport.NormHeaderFolds`). The one exception is the literal
  `descrição` in the list of text-column titles at
  `features/excel_import.py:26`: no normalised header can equal it, so that
  entry is dead (`ExcelImport.AccentedHeaderUnreachable`).

## Model

| member | source | states |
|---|---|---|
| Text.Strip | services/utils.py:26 | `strip()` returns a contiguous piece of its argument with no whitespace at either end |
| Text.StripSpaces | services/utils.py:26 | what `strip()` removes from either end is all whitespace |
| Text.StripEmptyIffAllSpaces | features/date_shift.py:17 | a string strips to the empty string exactly when it is all whitespace |
| Text.StripOfTrimmed | services/utils.py:26 | stripping a string with no whitespace at either end changes nothing |
| Text.Collapse | services/utils.py:26 | `re.sub(r"\s+", " ", s)` leaves no two adjacent whitespace characters and no whitespace other than a single space, and is empty only for the empty string |
| Text.CollapseChars | services/utils.py:26 | every character of the collapsed string is a space or a character of the input |
| Text.CollapseOfCollapsed | services/utils.py:26 | collapsing a string that is already collapsed changes nothing |
| Text.CollapseTrimmed | features/excel_import.py:12-13 | collapsing whitespace keeps a stripped string stripped |
| Text.ContainsAt | features/excel_import.py:48-51 | `part in s` holds exactly when `part` occurs at some position of `s` |
| Text.ZFill | services/utils.py:31-33 | `zfill(width)` pads with leading zeros to the width and keeps the string's characters after them |
| Text.Lower | features/excel_import.py:12 | `lower()` keeps the length and lowers each character |
| Text.Pad2 | features/date_shift.py:35 | a two-digit rendering of a number below 100 reads back as that number |
| Text.Pad4 | features/date_shift.py:35 | a four-digit rendering of a number below 10000 reads back as that number |
| Text.LexLeTotal | features/date_shift.py:81 | any two keys are ordered one way or the other |
| Text.LexLeTransitive | features/date_shift.py:81 | the key order is transitive |
| Text.LexLeAntisymmetric | features/date_shift.py:81 | keys ordered both ways are equal |
| Dict.IndexOf | features/date_shift.py:70 | the position of a key is its first occurrence; no position holds an absent key |
| Dict.Put | features/date_shift.py:72 | `d[k] = v` replaces the value in place for a present key and appends a new key; afterwards `d[k]` is `v` |
| Dict.PutLookup | features/date_shift.py:72 | after `d[k] = v` the keys are the old keys plus `k`, and every other key keeps its value |
| Dict.PutKeys | features/date_shift.py:72 | `d[k] = v` keeps the keys of the existing entries in place and keeps keys distinct |
| Dict.PutAllDistinct | features/date_shift.py:72 | a dict built by assignments has distinct keys |
| Dict.PutAllGet | features/date_shift.py:72 | in a dict built by assignments each key holds the value of its last assignment |
| Dict.PutAllHasKey | features/date_shift.py:70 | a dict built by assignments holds exactly the keys assigned |
| Dict.PutAllSize | features/date_shift.py:70-72 | the dict's size plus the number of re-assignments is the number of assignments |
| Dict.PutAllStep | features/excel_import.py:78-80 | one more assignment is one more `Put`, and counts as a re-assignment exactly when its key is present |
| Dict.PutAllOfDistinct | services/utils.py:68-71 | assignments to distinct keys build a dict that lists them in order |
| Dict.GetOfDistinct | services/utils.py:71 | in a dict, `d[k] == v` exactly when `(k, v)` is one of its items |
| Dict.InsertByKey | features/date_shift.py:81 | inserting into a sorted list keeps it sorted and adds exactly the one item |
| Dict.SortByKey | features/date_shift.py:81 | `sorted(items, key=…)` is sorted by key and a permutation of the items |
| Dict.SortByKeyOfDict | features/date_shift.py:81 | sorting a dict's items gives a dict with the same size, distinct keys and the same value for every key |
| Calendar.LastDayOfMonth | features/date_shift.py:19-20 | `calendar.monthrange(y, m)[1]` is between 28 and 31 |
| Calendar.MonthsFillYear | features/date_shift.py:19-20 | the month lengths of a year add up to its length (365 or 366) |
| Calendar.DaysBeforeYearClosed | features/date_shift.py:63 | the days before a year follow the Gregorian closed form with the 4/100/400 rule |
| Calendar.ToOrdinal | features/date_shift.py:63 | the day number of a valid date lies within its year and between 1 and the day number of 9999-12-31 |
| Calendar.FromOrdinal | features/date_shift.py:63 | every day number from 1 to that of 9999-12-31 is the day number of a date |
| Calendar.ToOrdinalInjective | features/date_shift.py:63 | two dates with the same day number are the same date |
| Calendar.FromToOrdinal | features/date_shift.py:63 | converting a date to its day number and back gives the date |
| Calendar.AddDays | features/date_shift.py:63 | `dt + timedelta(days=n)` succeeds exactly when the day number stays within 1 to 9999-12-31, and then moves the day number by `n` |
| Calendar.AddOneDay | features/date_shift.py:63 | adding one day is the next calendar day |
| Calendar.AddZeroDays | features/date_shift.py:63 | adding zero days gives the same date |
| Calendar.AddDaysTwice | features/date_shift.py:63 | adding `a` days and then `b` days is adding `a + b` days |
| Calendar.DateText | features/date_shift.py:35 | `strftime('%d/%m/%Y')` is `DD/MM/YYYY` whose three fields read back as the day, month and year |
| LooseDate.DigitRun | services/utils.py:28 | `\d{…}` consumes the leading run of digits |
| LooseDate.MatchDate | services/utils.py:28 | a match splits the string into a day, month and year of the allowed widths, separated by slashes, and the rest |
| LooseDate.MatchJoined | services/utils.py:28 | a well-formed day, month, year and rest joined by slashes are matched back into those same parts |
| LooseDate.BareDate | services/utils.py:35 | a `$`-anchored match leaves no rest |
| LooseDate.ExpandYear | services/utils.py:31 | a four-digit year is kept; a two- or three-digit year gets `"20"` in front, so a three-digit year becomes five digits |
| LooseDate.DateLabel | services/utils.py:33 | the rewritten date is two digits, `/`, two digits, `/`, and four or five digits |
| LooseDate.DateLabelText | services/utils.py:33 | the rewritten date is the zero-filled day, the zero-filled month and the expanded year |
| LooseDate.ShapeMatch | services/utils.py:28-33 | a rewritten date with a four-digit year matches the date token again and rewrites to itself; one with a five-digit year does not match |
| Utils.ReplaceDashes | services/utils.py:24-25 | the en dash, em dash and minus sign become `-`; every other character is kept |
| Utils.Clean | services/utils.py:24-26 | the cleaned label has no dash variants, no runs of whitespace and no whitespace at either end |
| Utils.CleanOfClean | services/utils.py:24-26 | cleaning a label that is already clean changes nothing |
| Utils.NormalizeText | services/utils.py:15-40 | `normalize_label` always returns a clean label |
| Utils.NormalizeIdempotent | services/utils.py:15-40 | normalising a normalised label changes nothing |
| Utils.NormalizeLabel | services/utils.py:21-22 | a value that is not a string normalises to the empty string |
| Utils.NormalizeLabelIdempotent | services/utils.py:15-40 | `normalize_label` is idempotent on any value |
| Utils.NormalizeDashVariants | services/utils.py:24-25 | a label with dash variants normalises as the label written with `-` |
| Utils.NormalizeDatedLabel | services/utils.py:28-33 | `d/m/y - x` becomes the padded date, ` -` and the stripped suffix, or `P` when the suffix is empty |
| Utils.NormalizeDashed | services/utils.py:28-33 | a dated label with a dash normalises to the padded date followed by its suffix |
| Utils.NormalizeBareDate | services/utils.py:35-39 | a bare date `d/m/y` becomes the padded date followed by ` -P` |
| Utils.NormalizeFixes | services/utils.py:28-33 | a label already in padded form with a stripped, single-spaced suffix is left as it is |
| Utils.NormalizeShortYear | services/utils.py:31 | `1/2/24` normalises to `01/02/2024 -P` |
| Utils.NormalizeThreeDigitYear | services/utils.py:31 | `5/3/123–T` normalises to `05/03/20123 -T`, a five-digit year |
| Utils.NormalizeNoCalendar | services/utils.py:28-39 | no calendar check is made: `99/99/2024` normalises to `99/99/2024 -P` |
| Utils.ValidateValueMap | services/utils.py:48-73 | the validator's loop builds exactly the accepted map and the error map of its specification, and a non-object gives only the `__root__` error |
| Utils.ValidateStep | services/utils.py:60-71 | each entry either adds its normalised key and text to the accepted map, or records its problem under its raw key, never both |
| Utils.ValidateAccounting | services/utils.py:60-71 | every entry of a batch ends up either accepted or in the errors |
| Utils.ValidateKeysCanonical | services/utils.py:65-71 | every accepted key matches `^\d{2}/\d{2}/\d{4} -.+$`, and the accepted keys are distinct |
| Utils.ValidateFirstWins | services/utils.py:68-71 | the accepted text of a normalised key is that of the first text entry that normalises to it and matches the pattern |
| Utils.AcceptedEntry | services/utils.py:64-71 | an entry without a problem is accepted under its normalised key with its text |
| Utils.ErrorOfEntry | services/utils.py:60-70 | the error recorded under an entry's raw key is that entry's problem: not text, off pattern, or duplicate after normalisation |
| Utils.RejectedDistinct | services/utils.py:60-70 | errors are recorded under distinct raw keys |
| Utils.SplitSizes | services/utils.py:60-71 | accepted entries plus error writes make up all entries |
| Utils.PreviewText | services/utils.py:43-45 | the preview is the stripped text on one line, kept whole when it fits in `maxlen` and otherwise cut to `maxlen` characters followed by `…` |
| Utils.Head | services/utils.py:45 | the slice `t[:n]` keeps the first `n` characters; a negative `n` counts from the end |
| Utils.OneLineTrimmed | services/utils.py:44 | the one-line text has no whitespace at either end |
| Utils.PreviewIdempotent | services/utils.py:43-45 | previewing a preview with the same non-negative `maxlen` changes nothing |
| DateShift.ParseKey | features/date_shift.py:5-14 | a parsed key yields a valid date whose `DD/MM/YYYY` text is the first ten characters of the left-stripped key, and a single-line suffix that is the stripped rest after the dash |
| DateShift.DateOfText | features/date_shift.py:11-12 | a valid date read from a `DD/MM/YYYY` pattern prints back as the same ten characters |
| DateShift.ParseFormatKey | features/date_shift.py:5-14 | a key written by `format_key` parses back to its date and suffix |
| DateShift.FormattedStart | features/date_shift.py:34-35 | a formatted key starts with the date's `DD/MM/YYYY`, which reads back as the date |
| DateShift.SuffixLetter | features/date_shift.py:16-17 | the letter is the upper-cased first non-space character; a suffix of only whitespace has none (the `IndexError`) |
| DateShift.AddMonths | features/date_shift.py:22-26 | `add_months` moves the month count by `n` and clamps the day to the target month's length; it fails exactly when the year leaves 1 to 9999 |
| DateShift.AddYears | features/date_shift.py:28-32 | `add_years` keeps the month, moves the year by `n` and clamps the day; it fails exactly when the year leaves 1 to 9999 |
| DateShift.AddYearsIsTwelveMonths | features/date_shift.py:22-32 | adding `n` years is adding `12 n` months |
| DateShift.AddMonthsBack | features/date_shift.py:22-26 | when the day was not clamped, adding `-n` months undoes adding `n` months |
| DateShift.MonthShiftKeepsApart | features/date_shift.py:22-26 | two different dates whose days are not clamped stay different after the same month shift |
| DateShift.ClampMerges | features/date_shift.py:22-26 | 30/01/2024 and 31/01/2024 plus one month both give 29/02/2024: clamping merges days |
| DateShift.AddNothing | features/date_shift.py:22-32 | adding zero months or zero years gives the same date |
| DateShift.ClampExamples | features/date_shift.py:22-32 | 31/01/2023 + 1 month is 28/02/2023; 29/02/2024 + 1 year is 28/02/2025; 31/03/2024 − 1 month is 29/02/2024 |
| DateShift.ShiftDate | features/date_shift.py:62-67 | for `Dias` the result is `AddDays`, for `Meses` it is `AddMonths`, and for any other unit it is `AddYears`; it succeeds exactly when that shift stays in range, and otherwise fails with `DateOutOfRange` |
| DateShift.ShiftByZero | features/date_shift.py:62-67 | a shift by zero in any unit leaves the date unchanged |
| DateShift.Route | features/date_shift.py:46-69 | an unparsed key is copied unchanged, and so is a key whose suffix letter the filter drops; it fails exactly when `Raises` holds, with `EmptySuffix` for a blank suffix and `DateOutOfRange` otherwise; a moved key is the shifted date with the same suffix |
| DateShift.NoFilterMovesAll | features/date_shift.py:53-73 | when the mode starts with neither `Só T` nor `Só P`, every parsed key that does not raise is moved |
| DateShift.MovedKeepsSuffix | features/date_shift.py:69 | a moved key parses back as the shifted date and the original suffix |
| DateShift.PassThroughNeverCollides | features/date_shift.py:46-72 | a key copied unchanged is never the new key of a moved entry |
| DateShift.RunFailureSticks | features/date_shift.py:45-73 | once an entry raises, the run's outcome is that error whatever follows |
| DateShift.ShiftEntries | features/date_shift.py:45-73 | the loop's dict and counters are exactly the specification's after all entries, or the first entry's error |
| DateShift.ShiftValueMap | features/date_shift.py:37-81 | `shift_value_map` returns the loop's dict sorted by key and its counters, or the first error |
| DateShift.RouteAllRoutes | features/date_shift.py:45-46 | all entries route exactly when none fails, and then each route is that entry's |
| DateShift.RunSucceeds | features/date_shift.py:45-73 | the run succeeds exactly when every entry routes |
| DateShift.ShiftFails | features/date_shift.py:45-73 | the shift fails exactly when some entry `Raises`: it parses and has a blank suffix, or the filter lets it through and its shifted date leaves the years 1 to 9999 |
| DateShift.ShiftByReference | features/date_shift.py:37-81 | the result is the sorted dict of all writes, and the counters count the moved, unparsed and filtered entries and the moves onto a present key |
| DateShift.ShiftCounts | features/date_shift.py:45-80 | `changed + invalid + filtered` is the number of entries |
| DateShift.OverwritesAreRepeats | features/date_shift.py:70-72 | the overwrite counter never exceeds the number of writes onto a present key |
| DateShift.OverwritesAreAllRepeats | features/date_shift.py:70-72 | when no copied entry lands on a present key, the overwrite counter counts every write onto a present key |
| DateShift.PassThroughFresh | features/date_shift.py:46-60 | with distinct input keys, a copied entry is written under a key not yet in the result |
| DateShift.ShiftSizeBound | features/date_shift.py:37-81 | the result's size plus `overwritten_in_lot` is at most the number of entries |
| DateShift.ShiftSizeExact | features/date_shift.py:37-81 | for a dict, the result's size plus `overwritten_in_lot` is exactly the number of entries |
| DateShift.ShiftResult | features/date_shift.py:72-81 | the result is sorted by key, has distinct keys, and under every key holds the text of the last entry written there |
| DateShift.ZeroShiftKeepsDates | features/date_shift.py:62-69 | a shift by zero moves no entry to a different date or suffix |
| ExcelImport.StripAccents | features/excel_import.py:6-9 | `_strip_accents` never lengthens a string and leaves no accented letter or combining mark |
| ExcelImport.StripAccentsUnaccented | features/excel_import.py:6-9 | a string without accents is left as it is |
| ExcelImport.StripAccentsMap | features/excel_import.py:6-9 | without combining marks, each accented letter becomes its base letter and every other character is kept |
| ExcelImport.Fold | features/excel_import.py:12 | accent stripping then `lower()` leaves only folded characters |
| ExcelImport.FoldMap | features/excel_import.py:12 | folding a string without combining marks folds it character by character |
| ExcelImport.FoldIdempotent | features/excel_import.py:12 | folding twice is folding once |
| ExcelImport.NormHeaderShape | features/excel_import.py:11-14 | `_norm_header` gives a stripped, single-spaced, folded header |
| ExcelImport.NormHeaderIdempotent | features/excel_import.py:11-14 | normalising a normalised header changes nothing |
| ExcelImport.NormHeaderFolds | features/excel_import.py:11-14 | headers that differ only in accents and case normalise alike |
| ExcelImport.AccentedHeaderUnreachable | features/excel_import.py:26 | no header normalises to `descrição`, so that entry of the title list never matches |
| ExcelImport.HeaderRowOf | features/excel_import.py:19 | `row_vals` holds the normalised header of every column from 1 to `max_column`; a cell without a string reads as the empty header |
| ExcelImport.Assign | features/excel_import.py:22-27 | a header claims its column for the first of date, modality and text that it matches, and leaves the other roles as they were |
| ExcelImport.ScanRow | features/excel_import.py:20-27 | the column scan of one row computes the candidate columns of its specification |
| ExcelImport.ScanPicksLast | features/excel_import.py:21-27 | each role gets the last column whose header matches it, and no column only when no header matches |
| ExcelImport.FindHeaderRowAndMap | features/excel_import.py:16-30 | the header search returns exactly its specification's row and columns |
| ExcelImport.HeaderFromFirst | features/excel_import.py:18-30 | the search returns the first row, from the given one on, where all three roles are found; otherwise row 1 with columns 1, 2 and 4 |
| ExcelImport.FindHeaderFirst | features/excel_import.py:16-30 | the header row is the first of rows 1 to 10 with all three roles, with that row's columns; otherwise row 1 with columns 1, 2 and 4 |
| ExcelImport.FmtDate | features/excel_import.py:32-44 | a formatted date is two digits, `/`, two digits, `/`, and four or five digits |
| ExcelImport.DateCellRereads | features/excel_import.py:35-36 | a date cell formats as `DD/MM/YYYY`, and that text formats back to itself |
| ExcelImport.FmtDateRereads | features/excel_import.py:37-44 | a formatted date written as text is read back as itself when its year has four digits, and refused when it has five |
| ExcelImport.FmtDateIdempotent | features/excel_import.py:32-44 | formatting the text of a four-digit-year result gives the same result |
| ExcelImport.NumberIsNoDate | features/excel_import.py:37-44 | an integer cell never reads as a date |
| ExcelImport.KeepDateChars | features/excel_import.py:38 | `re.sub(r"[^\d/]", "", s)` keeps only digits and slashes |
| ExcelImport.CellText | features/excel_import.py:71 | the row text is stripped |
| ExcelImport.ModToSuffix | features/excel_import.py:46-52 | `mod_to_suffix` gives `T` or `P` or nothing |
| ExcelImport.ModToSuffixFolds | features/excel_import.py:46-52 | the modality is read regardless of case and accents |
| ExcelImport.ModNeedsText | features/excel_import.py:46-47 | a cell that holds no string gives no suffix |
| ExcelImport.TheoryExample | features/excel_import.py:48-49 | `Teórica` gives `T` |
| ExcelImport.PracticeExample | features/excel_import.py:50-51 | `PRÁTICA` gives `P` |
| ExcelImport.RowKeyShape | features/excel_import.py:77 | a row's key is a formatted date, ` -`, and `T` or `P` |
| ExcelImport.ImportKeyNormal | features/excel_import.py:77-83 | an imported key is already normalised |
| ExcelImport.ImportKeyCanonical | features/excel_import.py:77-83 | an imported key matches the validator's pattern exactly when its year has four digits |
| ExcelImport.RowEntryShape | features/excel_import.py:65-77 | a row that is not skipped gives an import-shaped key and a non-empty, stripped text |
| ExcelImport.ReadRows | features/excel_import.py:64-81 | the row loop's `new_items` and counters are exactly the specification's after the last row |
| ExcelImport.ReadFromWrites | features/excel_import.py:64-81 | `new_items` is the dict of the rows' assignments; `imported` counts them, `skipped` counts the rest, and `overwritten` counts assignments to a present key |
| ExcelImport.RowsAccounted | features/excel_import.py:64-75 | every row below the header is either imported or skipped |
| ExcelImport.AsBatch | features/excel_import.py:83 | the rows' dict is handed to the validator as a JSON object of strings, entry by entry |
| ExcelImport.ProcessWorksheet | features/excel_import.py:54-91 | `process_worksheet` returns exactly its specification's normalised map and statistics |
| ExcelImport.ValidateImported | features/excel_import.py:83 | validating the imported dict accepts exactly its four-digit-year keys and refuses the others as off pattern |
| ExcelImport.ProcessOutcome | features/excel_import.py:83-91 | the returned map is the imported entries with four-digit years, the errors are the others, and `valid + len(errors)` is the number of distinct keys |
| ExcelImport.ProcessCounts | features/excel_import.py:59-91 | `imported` counts the rows filed, `imported + skipped` is the number of rows below the header, and distinct keys plus `overwritten_in_lot` is `imported` |
| ExcelImport.LaterRowWins | features/excel_import.py:78-80 | a key holds the text of the last row filed under it |
| ExcelImport.ImportLastRowWins | features/excel_import.py:64-81 | after the row loop, each key holds the text of the last row that produced it |
| ExcelImport.WritesKeys | features/excel_import.py:77-80 | every assignment of the row loop is under an import-shaped key |

## Left out

- Character classes: `\d` and `upper()` are modelled on ASCII only, and `lower()` on ASCII plus the Latin-1 capitals U+00C0 to U+00DE other than U+00D7. `\s` and `strip()` use the full `str.isspace` set. Unicode digits and other non-ASCII case mappings are not modelled.
- ExcelImport.StripAccents: the NFKD decomposition is modelled for the accented letters of Latin-1 and the combining marks U+0300 to U+036F. Other compatibility decompositions (ligatures, full-width forms, other scripts) are not modelled.
- Utils.PreviewText: for a negative `maxlen` the contract states only that the preview is one line. The function itself follows Python's slice, which counts a negative bound from the end (`Utils.Head`).
- DateShift.FormatKey: `%Y` is modelled as four zero-padded digits. CPython's `strftime` pads years below 1000 differently on some platforms.
- Messages: error messages are the `Problem` datatype, and the counters are datatype fields; their Portuguese wording and `repr` quoting are not modelled.
- Non-string keys: `str(k)` on non-string keys is not modelled; JSON object keys are always strings.
- Workbook I/O: loading the workbook with openpyxl is not modelled. A worksheet is a sequence of rows of cells, and `max_row` is the number of rows. A cell is empty, a string, an integer or a date at midnight.
- Other cell types: float, boolean and time-of-day cells are not modelled, nor date-times with a time part.
- ExcelImport.ProcessWorksheet: `process_worksheet` takes the validator as a parameter. The model calls `Utils.ValidateValueMap`, the one its only caller passes (ui/app.py:282).
- ExcelImport.ReadRows: takes the per-row reading (`fmt_date_ddmmyyyy`, `mod_to_suffix` and the text) as a function from row number to entry, rather than reading the worksheet itself. `ExcelImport.ProcessWorksheet` passes the worksheet's rows.
- DateShift.ShiftEntries: takes the routing of one key as a function value. `DateShift.ShiftValueMap` passes `Route` with the run's unit, amount and filter mode.
- The UI, the portal driver, cookies and configuration paths (`services/ui.py`, `services/diario.py`, `services/drivers.py`, `services/cookies.py`, `ui/`) are not part of this model.
