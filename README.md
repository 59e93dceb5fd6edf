# normalize_csv: the row pipeline in Dafny

This project models the core of `normalize_csv`, a small Python 2 tool. The tool reads a CSV
header line and data lines and turns each data line into a row of typed cells. It then
computes a total duration from two other columns. Two revisions of the program are modelled:

- the current one, `normalize_csv/normalize_csv.py` (module `Table`);
- the earlier top-level `normalize_csv.py` (module `EarlyRevision`).

The modules are:

- `Str` (strings.dfy): the Python 2 `str` operations the program relies on, for ASCII text:
  - `strip`, `lower`, `upper`;
  - `find`/`index`, `split`, `join`;
  - `zfill`;
  - `int`/`float` on digit strings;
  - `list.index`.
- `Rules` (rules.dfy):
  - the exceptions the program can raise, as the `Error` datatype;
  - the `col_lookups` table;
  - the `H:MM:SS` duration parser;
  - the per-class `normalize` rules of both revisions.
- `Splitter` (splitter.dfy):
  - `process_headers`;
  - the cell a column's class builds;
  - the line splitter of `process_line` as a pure function, `Row`, for both revisions;
  - the properties of `Row`: field boundaries, both split/join round trips, the error causes, and how the revisions compare.
- `Table` (table.dfy): the current `CSV` class, a Dafny `class` with `headers` and `rows` fields. Its methods are `Load`, `ProcessLine` (the cursor loop) and `CalculateTotalDuration`. Each method is proved against a specification function (`Loaded`, `LineStep`, `TotalStep`). The lemmas about the total-duration pass sit beside them.
- `EarlyRevision` (early.dfy): the earlier `CSV` class. Its `Load` and `ProcessLine` are proved against `Loaded` and `Row(Earlier, …)`.

Exceptions are values: `Result<T>` is `Ok(value)` or `Err(error)`, and `Outcome` is `Pass` or
`Fail(error)`. Each `Err` is the first exception Python would raise, and loading stops at it.

Some behaviour of the code is easy to misread:

- **Unclosed quote.** A quoted address without a closing quote raises nothing. `find` returns -1, so the field ends at index 0 and the address text is empty (`Splitter.UnclosedQuote`).
- **Missing duration column.** `calculate_total_duration` raises ValueError when `fooduration`, `barduration` or `totalduration` is missing (`Table.DurationColumnsShape`). It runs on every data line, so the first data line already fails, even with no row stored yet (`Table.MissingDurationColumnFailsFirstLine`).
- **Timing of the total pass.** The pass runs inside `process_line` before the new row is stored. So it totals only the rows already stored (`Table.LastRowNeverTotalled`).
- **Normalisation errors.** `Cell.__init__` calls `normalize`, so a bad duration or timestamp aborts the whole `process_line`.

## Model

| member | source | states |
|---|---|---|
| Str.ParseInt | normalize_csv/normalize_csv.py:128-132 | Definition of `int()` on a digit string; its properties are in `Str.ZFillKeepsValue` and `Rules.DurationOfParts`. |
| Str.ParseFloat | normalize_csv/normalize_csv.py:135 | Definition of `float()` on digits with at most one '.'; its properties are in `Str.FracValue` and `Rules.DurationOfParts`. |
| Str.StripLeftShape | normalize_csv/normalize_csv.py:16-19 | `lstrip` keeps a suffix of the text. Everything it drops is whitespace, and what it keeps does not start with whitespace. |
| Str.StripRightShape | normalize_csv/normalize_csv.py:16-19 | `rstrip` keeps a prefix of the text. Everything it drops is whitespace, and what it keeps does not end with whitespace. |
| Str.StripShape | normalize_csv/normalize_csv.py:16-19 | `strip()` returns the input minus its leading and trailing whitespace. Nothing but whitespace is removed, and the result neither starts nor ends with whitespace. |
| Str.StripIdempotent | normalize_csv/normalize_csv.py:16-19 | Stripping a stripped line changes nothing. |
| Str.Find | normalize_csv/normalize_csv.py:34-38 | `find`/`index` return -1 or an index at or after the start that holds the character. |
| Str.FindFirst | normalize_csv/normalize_csv.py:34-38 | The index found is the first occurrence after the start. With -1 there is none. |
| Str.FindIs | normalize_csv/normalize_csv.py:34-38 | A first occurrence, or the absence of any occurrence, determines the result of `find`. |
| Str.Split | normalize_csv/normalize_csv.py:63-65 | `split(',')` gives at least one piece, and no piece holds a comma. |
| Str.JoinSplit | normalize_csv/normalize_csv.py:63-65 | Joining the pieces of a split with the separator gives the string back. |
| Str.SplitJoin | normalize_csv/normalize_csv.py:63-65 | Splitting a join of separator-free pieces gives the pieces back. |
| Str.IndexOf | normalize_csv/normalize_csv.py:52-55 | `list.index` raises exactly when the element is absent. Otherwise it gives the first position holding the element. |
| Str.ZFillShape | normalize_csv/normalize_csv.py:106-108 | `zfill` leaves strings of at least the width alone. It puts exactly the missing zeros in front of shorter unsigned strings, and keeps a sign in front of the zeros. |
| Str.ZFillIdempotent | normalize_csv/normalize_csv.py:106-108 | `zfill` applied twice is `zfill` applied once. |
| Str.ZFillKeepsValue | normalize_csv/normalize_csv.py:106-108 | Padding a digit string keeps it a digit string of the same number. |
| Str.UpperShape | normalize_csv/normalize_csv.py:167-169 | `upper()` leaves no lower-case letter and changes nothing but lower-case letters. |
| Str.UpperIdempotent | normalize_csv/normalize_csv.py:167-169 | Upper-casing is idempotent. |
| Str.UpperIgnoresCase | normalize_csv/normalize_csv.py:167-169 | Two names that differ only in case upper-case to the same text. |
| Str.FracValue | normalize_csv/normalize_csv.py:135 | The digits after a decimal point add a value in [0, 1) to `float()`'s result. |
| Rules.Lookup | normalize_csv/normalize_csv.py:172-182 | Definition of `col_lookups[header.lower()]`; its properties are in `Rules.LookupByName`. |
| Rules.LookupByName | normalize_csv/normalize_csv.py:172-182 | `col_lookups[header.lower()]` ignores case. Zip, address, total duration and the two foo/bar duration columns are each reached by exactly their lower-case names. KeyError is raised exactly when the lower-cased header is not a key. |
| Rules.ParseDuration | normalize_csv/normalize_csv.py:125-139 | Definition of the `H:MM:SS` parser up to the first colon; its properties are in `Rules.DurationOfParts` and `Rules.DurationNeedsTwoColons`. |
| Rules.ParseMinutesSeconds | normalize_csv/normalize_csv.py:131-139 | Definition of the rest of the parser, from the second colon on; its properties are in `Rules.DurationOfParts` and `Rules.DurationNeedsTwoColons`. |
| Rules.DurationOfParts | normalize_csv/normalize_csv.py:125-139 | For digit strings `h` and `m` and a number `s`, `h:m:s` parses to `h*3600 + m*60 + s` seconds. |
| Rules.DurationNeedsTwoColons | normalize_csv/normalize_csv.py:127-131 | Parsing fails when the first ':' is missing, or when the second ':' after it is missing. |
| Rules.FirstColon | normalize_csv/normalize_csv.py:127 | In `h:m:s` with a colon-free `h`, `index(':')` finds the colon after the hours. |
| Rules.SecondColon | normalize_csv/normalize_csv.py:131 | With colon-free minutes, the second `index(':', start)` finds the colon after the minutes. |
| Rules.DurationExample | normalize_csv/normalize_csv.py:125-139 | `1:02:03` is 3723 seconds. |
| Rules.FractionalDurationExample | normalize_csv/normalize_csv.py:125-139 | `1:02:03.5` is 3723.5 seconds. |
| Rules.Normalize | normalize_csv/normalize_csv.py:88-169 | A cell's `normalize` fails exactly for a duration its parser rejects or a timestamp the conversion rejects. It yields seconds exactly for the foo/bar duration classes. |
| Rules.TextRulesIdempotent | normalize_csv/normalize_csv.py:102-117 | The zip, full name, address and notes rules always succeed with text. Normalising their output again gives it back. |
| Rules.ZipRule | normalize_csv/normalize_csv.py:102-108 | The zip value is five long, or as long as the input if that is longer. Longer inputs are unchanged, and shorter unsigned ones are zero-padded. A digit string keeps its number. |
| Rules.FullNameRule | normalize_csv/normalize_csv.py:163-169 | The full name is upper-cased. Names differing only in case normalise alike. |
| Splitter.ProcessHeaders | normalize_csv/normalize_csv.py:63-65 | `process_headers` gives at least one header, each comma-free, and joining them with ',' gives the header line back. |
| Splitter.HeadersRoundTrip | normalize_csv/normalize_csv.py:63-65 | Comma-free headers joined with ',' are read back unchanged. |
| Splitter.MakeCell | normalize_csv/normalize_csv.py:40-41 | Definition of `col_lookups[header.lower()](raw)`: look the class up, build and normalise the cell; its properties are in `Splitter.MakeCellError` and `Splitter.FactoriesAgree`. |
| Splitter.RowFrom | normalize_csv/normalize_csv.py:26-44 | Definition of the cursor loop from column `i` on; its properties are in `Splitter.RowShape`, `Splitter.FieldBoundaries` and `Splitter.RowErrors`. |
| Splitter.Row | normalize_csv/normalize_csv.py:21-48 | Definition of the cells `process_line` splits from a line; its properties are in `Splitter.RowShape`, `Splitter.JoinRoundTrip` and `Splitter.JoinOfRow`. |
| Splitter.FieldEnd | normalize_csv/normalize_csv.py:31-38 | A column's end index never exceeds the length of the line. |
| Splitter.FieldEndAt | normalize_csv/normalize_csv.py:31-38 | A text sitting at the cursor ends where the splitter says it does, and the splitter cuts out exactly that text. The text must end at a comma and fit its column, or run to the end of the line in the last column. |
| Splitter.RowStep | normalize_csv/normalize_csv.py:26-44 | Proof step, unfolding one iteration. One step of the cursor loop: when column `i` ends at `end` and its class builds `cell`, the row from `i` is `cell` in front of the row from `end + 1`. |
| Splitter.RowUnfold | normalize_csv/normalize_csv.py:26-44 | Proof step, unfolding one iteration. The converse step: a successful row from column `i` starts with the cell built from column `i`'s text. It goes on with the row from one character past that field's end. |
| Splitter.SplitEndFails | normalize_csv/normalize_csv.py:34 | Proof step, unfolding one iteration. When `line.index` raises for a column, the whole line fails with that error, whatever cells were built before. |
| Splitter.SplitCell | normalize_csv/normalize_csv.py:40-44 | A column whose class raises makes the line fail with that exception. Otherwise appending its cell and moving the cursor past the field end keeps the loop invariant. |
| Splitter.SplitDone | normalize_csv/normalize_csv.py:26-48 | Once every column is done, the line's result is exactly the cells built. |
| Splitter.RowShape | normalize_csv/normalize_csv.py:26-42 | A successful line gives one cell per header in the current revision (`len(headers) - 1` in the earlier one), in header order. Cell `k` has the class of `col_lookups[headers[k].lower()]`, and its value is that class's `normalize` of the cell's own text. |
| Splitter.FieldBoundaries | normalize_csv/normalize_csv.py:31-44 | Every column that ends at a comma holds comma-free text. The exception is a quoted address column, which holds a quote, quote-free text and a closing quote. In the current revision the last column is the rest of the line. |
| Splitter.UnclosedQuote | normalize_csv/normalize_csv.py:36-38 | A quoted address with no closing quote raises nothing. Its end index is 0 and its text is empty. |
| Splitter.MissingCommaFails | normalize_csv/normalize_csv.py:34 | With two headers or more, a line without a comma raises ValueError at the first column, in both revisions. |
| Splitter.JoinRoundTrip | normalize_csv/normalize_csv.py:26-44 | Split after join: one well-formed text per header, joined with ',', is read back text for text, quoted addresses included. |
| Splitter.RowOfJoin | normalize_csv/normalize_csv.py:26-44 | Splitting a join of well-formed texts succeeds. It gives one cell per column read, holding that column's text, in both revisions. |
| Splitter.JoinOfRow | normalize_csv/normalize_csv.py:26-44 | Join after split: the cell texts joined with ',' give the line back exactly when every field before the last ends just before a ',' (`Splitter.CommaEnds`). The proof covers both directions. |
| Splitter.UnquotedCommaEnds | normalize_csv/normalize_csv.py:34-38 | When no quoted address can start before the last column, every field before the last ends at a comma, so `Splitter.JoinOfRow` applies. |
| Splitter.RowErrors | normalize_csv/normalize_csv.py:34-41 | Every exception of the splitter has a cause. It is either a comma missing after a column that needs one, or a column whose header is not in `col_lookups`, or a duration or timestamp text its parser rejects. |
| Splitter.MakeCellError | normalize_csv/normalize_csv.py:40-41 | Building a cell fails only for an unknown header, a rejected duration or a rejected timestamp. |
| Splitter.RevisionsAgree | normalize_csv.py:22-42 | Where both revisions treat the same headers as address columns, the earlier revision builds the current one's cells minus the last. The exceptions: a timestamp cell holds the earlier revision's own conversion of the same text, and a total-duration cell holds ''. Each revision has its own conversion; the two only reject the same texts, since both call `strptime` with the format `%x %X %p`. |
| Splitter.FactoriesAgree | normalize_csv.py:35-37 | The two revisions' cell classes build a cell of the same class from the same text, and fail on the same texts. Only two values differ: a timestamp holds each revision's own conversion, and the earlier total duration stays ''. |
| Splitter.TimestampsFollowRevision | normalize_csv.py:63-67 | For headers `timestamp,notes`, each revision's timestamp cell holds that revision's own conversion of the same text. |
| Splitter.EarlierLosesLastField | normalize_csv.py:26 | The earlier revision reads a joined line of well-formed texts but returns every text except the last. |
| Splitter.EarlierIgnoresLastHeader | normalize_csv.py:26-35 | The earlier revision never looks at the last header. Its name cannot raise KeyError and changes no cell. |
| Table.DurationColumns | normalize_csv/normalize_csv.py:52-55 | Definition of the three `index` calls; its properties are in `Table.DurationColumnsShape`. |
| Table.DurationColumnsShape | normalize_csv/normalize_csv.py:52-55 | The three `index` calls succeed exactly when all three duration columns are present (compared lower-cased), and give their first positions. Otherwise the error is the ValueError for the first column missing, in the order foo, bar, total. |
| Table.ColumnKinds | normalize_csv/normalize_csv.py:52-60 | In a row `process_line` built, the cells at the found positions are of the foo/bar and total classes. The durations hold seconds. |
| Table.RowFitsHeaders | normalize_csv/normalize_csv.py:26-42 | Every row `process_line` builds has one cell per header, of the header's class. |
| Table.TotalRow | normalize_csv/normalize_csv.py:58-60 | `add_foo_bar` makes the total cell of a ready row hold foo + bar. It leaves every other cell, and the total cell's class and text, unchanged. |
| Table.TotalRowIdempotent | normalize_csv/normalize_csv.py:149-151 | Totalling a row twice is totalling it once. |
| Table.TotalRowKeepsTotalled | normalize_csv/normalize_csv.py:58-60 | A row already totalled is left unchanged. |
| Table.TotalPass | normalize_csv/normalize_csv.py:57-60 | After the loop over the stored rows, every ready row is totalled. Every row keeps its length, and no cell outside the total column changes. |
| Table.TotalStep | normalize_csv/normalize_csv.py:50-60 | `calculate_total_duration` passes exactly when the three duration columns exist. It then totals every stored row. Otherwise it raises the ValueError and leaves the rows alone. |
| Table.LineStep | normalize_csv/normalize_csv.py:40-48 | Definition of what `process_line` returns and leaves in `rows`; its properties are in `Table.LineStepShape`. |
| Table.LineStepShape | normalize_csv/normalize_csv.py:40-48 | `process_line` returns its cells exactly when the line splits cleanly and the three duration columns exist. The rows stored before then go through the total pass. On an exception from the cursor loop the rows are untouched. |
| Table.LoadFrom | normalize_csv/normalize_csv.py:18-19 | Definition of the `load` loop over the remaining lines; its properties are in `Table.LoadNext`, `Table.LoadLength` and `Table.LoadTotals`. |
| Table.Loaded | normalize_csv/normalize_csv.py:14-19 | Definition of `load` after the header line; its properties are in `Table.LoadLength`, `Table.LoadTotals` and `Table.LastRowNeverTotalled`. |
| Table.RowsReady | normalize_csv/normalize_csv.py:26-55 | Once the duration columns are found, every row the cursor loop builds has seconds under foo and bar and a separate total column. |
| Table.LoadNext | normalize_csv/normalize_csv.py:18-19 | Proof step, unfolding one iteration. One step of `load`: the first line's `process_line`, then the rest of the lines, or that line's exception. |
| Table.LoadNeedsColumns | normalize_csv/normalize_csv.py:19-55 | A load over at least one line passes only if the three duration columns exist. |
| Table.LoadLength | normalize_csv/normalize_csv.py:18-19 | A load that passes stores one row per line. Its last row is the last line's cells. |
| Table.LoadTotals | normalize_csv/normalize_csv.py:19-60 | A load that passes leaves every row totalled except the last one stored. |
| Table.FreshTotalIsText | normalize_csv/normalize_csv.py:146-147 | A freshly built row is ready for the total pass, but its total cell holds its own text, not a sum. |
| Table.LastRowNeverTotalled | normalize_csv/normalize_csv.py:19-46 | As written, when loading passes every row except the last is totalled. The last row is exactly the cells `process_line` built. Its durations hold seconds, yet its total is not foo + bar. |
| Table.FinalPass | normalize_csv/normalize_csv.py:57-60 | One more pass over rows that are all totalled except a ready last row totals that row too. It leaves the others unchanged. |
| Table.AllRowsTotalled | normalize_csv/normalize_csv.py:14-46 | With the final pass every row is totalled. The outcome is the same as before, and only the last row differs from plain loading. |
| Table.MissingDurationColumnFailsFirstLine | normalize_csv/normalize_csv.py:46-55 | Without all three duration columns, loading fails at the first data line and stores nothing. The error is the ValueError of the missing column when that line splits cleanly. |
| Table.CSV.constructor | normalize_csv/normalize_csv.py:9-11 | A new object has no headers and no rows. |
| Table.CSV.Load | normalize_csv/normalize_csv.py:14-19 | The headers are `process_headers` of the stripped header line. The outcome and the stored rows are `Loaded`'s. |
| Table.CSV.ProcessLine | normalize_csv/normalize_csv.py:21-48 | The cursor loop returns `Row` of the line, or its first exception. The stored rows become those of `calculate_total_duration`, or stay as they were on an exception. |
| Table.CSV.SplitLine | normalize_csv/normalize_csv.py:23-44 | The cursor loop returns `Row` of the line: the cells of every column, or the first exception raised. |
| Table.CSV.SeekEnd | normalize_csv/normalize_csv.py:31-38 | The end index of a column is `FieldEnd`'s: the end of the line for the last column, otherwise the next comma (ValueError without one), or just past the closing quote of a quoted address. |
| Table.CSV.CalculateTotalDuration | normalize_csv/normalize_csv.py:50-60 | The outcome and the new rows are `TotalStep`'s. |
| Table.CSV.LoadTotalled | normalize_csv/normalize_csv.py:14-19 | `load` followed by a total pass over the stored rows. The outcome and rows are `TotalledLoad`'s. |
| EarlyRevision.Stored | normalize_csv.py:16-17 | Loading never stores more rows than there are lines, and stored row `k` is exactly the cells line `k` built. |
| EarlyRevision.StoredNext | normalize_csv.py:16-17 | Proof step, unfolding one iteration. One step of `load`: the first line's cells in front of the rest, or that line's exception. |
| EarlyRevision.StoredRows | normalize_csv.py:16-17 | Each line's cells are stored in order until the first exception. Loading passes exactly when every line was stored, and otherwise fails with the exception of the first line not stored. |
| EarlyRevision.Loaded | normalize_csv.py:13-17 | Loading never stores more rows than there are lines. |
| EarlyRevision.LoadedRows | normalize_csv.py:13-17 | Stored row `k` is exactly `process_line` of stripped line `k`. Loading stops at the first line that raises, with that line's exception. |
| EarlyRevision.LoadedRowsLoseLastColumn | normalize_csv.py:17-26 | Every stored row has `len(headers) - 1` cells. |
| EarlyRevision.CSV.constructor | normalize_csv.py:8-10 | A new object has no headers and no rows. |
| EarlyRevision.CSV.Load | normalize_csv.py:13-17 | The headers are `process_headers` of the stripped header line. The outcome and rows are `Loaded`'s. |
| EarlyRevision.CSV.ProcessLine | normalize_csv.py:22-42 | The cursor loop over the first `len(headers) - 1` columns returns `Row(Earlier, …)` of the line. The quoted-address check is case-sensitive, against `Address`. |
| EarlyRevision.CSV.SeekEnd | normalize_csv.py:29-33 | The end index of a column is the next comma (ValueError without one), or just past the closing quote when the header is exactly `Address` and the field starts with a quote. |

## Left out

- Timestamp conversion is a parameter of type `Stamp = string -> Option<string>`, and each `CSV` object is given its own. `None` stands for the ValueError of `strptime`. The conversion is library and time-zone behaviour, not part of this program.
  - In the current revision it stands for `strptime`, adding three hours, attaching US/Eastern with `pytz`, and `isoformat` (normalize_csv/normalize_csv.py:92-99).
  - In the earlier revision it stands for `strptime` and `isoformat` only (normalize_csv.py:65-67).
  - When the revisions are compared, the one link between the two conversions is `Splitter.RejectAlike`: both call `strptime` with the format `%x %X %p`, so they reject the same texts.
- Floating point: seconds are exact reals, and foo + bar is exact addition.
- `int()` and `float()` accept only plain digit strings (with one '.' for `float`). Python's whitespace, sign, exponent and `inf` forms are not modelled.
- Str.Lower and Str.Upper: ASCII only; Python's Unicode case mapping is not modelled.
- `validate_unicode` is an empty TODO in the source and is not modelled.
- Input and output are parameters or not modelled:
  - `raw_input()` is the `headerLine` parameter and `sys.stdin` the `lines` parameter of `Load`;
  - `main`'s printing and the earlier file's module-level script are not modelled;
  - `__init__` calling `load()` is the constructor followed by `Load`.
- `setup.py` (packaging only), the earlier `address_index` (never called), the empty earlier `Row` class and the unreachable base-class `normalize` are not modelled.
- Table.TotalRow: a row that is not ready (no seconds under foo and bar, or no separate total column) is left unchanged. The source has no such guard, but such a row is never stored once the duration columns are found (`Table.RowsReady`).
- Cells are values, not objects. `add_foo_bar` overwriting a cell in place becomes a row whose total cell is replaced. The model cannot express aliasing between rows, but no cell is shared in the source either.

## Findings

| source | as written | input that shows it | evidently intended | confidence | as-written member | corrected member |
|---|---|---|---|---|---|---|
| normalize_csv/normalize_csv.py:46 | `calculate_total_duration` runs inside `process_line` before the new row is appended, so the last row stored is never totalled | headers `fooduration,barduration,totalduration` and one data line `0:00:01,0:00:02,x`: the row's total stays `'x'`, not 3.0 | every stored row's total is foo + bar | not executed | Table.LastRowNeverTotalled | Table.AllRowsTotalled |
| normalize_csv.py:26 | `range(len(self.headers) - 1)` never builds a cell for the last column | headers `zip,notes` and line `123,hi`: one cell, and `hi` is lost | one cell per header, as the current revision does | not executed | Splitter.EarlierLosesLastField | Splitter.JoinRoundTrip |
