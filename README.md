# KNMI climate converter, modelled in Dafny

`convert.py` converts KNMI's historical hourly weather measurements for one
station into projected, climate-changed hourly values. It works in two stages:

- **Comparer** reads two KNMI daily files in lockstep. The reference file holds
  the historical daily means; the projected file holds the same days in a
  climate scenario. Each file starts with `#` comment lines, then a station row
  whose first token is the sentinel `00000000`, then four more sentinel rows,
  then the data rows. For every date, Comparer keeps the offset
  `projected - reference` in the configured station's column.
- **Transformer** copies the hourly CSV file's preamble and its `#` header line.
  It looks up the columns `STN`, `YYYYMMDD`, `HH`, `T` and `T10N` in the header.
  It then rewrites every non-blank data line: `T`, and `T10N` when it is not
  blank, become `str(int(value + 10 * offset)).rjust(5)`. It returns how many
  lines it rewrote.

The model keeps the program's shape. `Comparer` and `Transformer` are classes:

- `Comparer` has the offset table as a `map` field, filled in place by
  `LoadData`.
- `Transformer` has the output file as a `seq` field that `Transform` appends to.
  The hourly file is a `seq` field holding the lines not read yet. `ReadLine`
  takes its first line, so a second `Transform` starts where the first stopped.

The `readline` loops are `while` loops in methods. Each method is proved
against a function that specifies it:

- `LocateColumn` for `_scroll_and_find_col`;
- `LoadRows`/`Load` for `_load_data`;
- `RewriteLine` for the per-line rewrite;
- `RunSteps`/`TransformRun` for `transform`.

Lemmas then state what those functions guarantee.

A file is modelled as the sequence of its lines without line terminators. A
read position is an index into that sequence. Reading past the end gives the
empty line, as `readline()` does at end of file.

Every exception the script can raise is a value of `Common.ConvertError`,
returned in a `Result` or `Option`:

- `IndexError` on a missing token or field;
- `ValueError` from `int()`, `float()` and `list.index`, and the script's own
  `ValueError`s;
- `KeyError` from `get_diff`.

The Python built-ins the script relies on are modelled in `text.dfy` and
`numbers.dfy`:

- `str.strip`, `str.split()` and `str.split(',')`, `str.join`, `list.index`;
- `int()` on text, `float()` as an exact decimal, `int()` on a number
  (truncation toward zero), `str(int)` and `str.rjust`.

Files:

| file | contents |
|---|---|
| `common.dfy` | `Option`, `Result`, and `ConvertError` (one constructor per exception the script raises) |
| `text.dfy` | whitespace, `strip`, `split()`, `split(sep)`/`join`, `list.index` |
| `numbers.dfy` | `int()`, `float()`, `str(int)`, truncation toward zero, `rjust` |
| `comparer.dfy` | `Comparer`: `_scroll_and_find_col`, `_load_data`, `get_diff` |
| `transformer.dfy` | `Transformer`: `transform` and its per-line rewrite |

## Model

| member | source | states |
|---|---|---|
| `Text.LineAt` | convert.py:33-34 | `readline()` past the end of the file gives the empty line |
| `Comparer.FirstNonCommentSpec` | convert.py:49-51 | the lines the comment loop skips are exactly the leading lines starting with `#`; the line it stops at does not start with `#` (past the end this is the empty line) |
| `Comparer.SkipComments` | convert.py:50-51 | the `readline` loop stops at the first non-comment position and returns that line |
| `Comparer.LocateColumnSpec` | convert.py:46-65 | success iff the first non-comment row starts with `00000000`, holds the station, and is followed by four more rows starting with `00000000`. On success, the column is the first index of the station among the row's tokens, and reading resumes 5 rows later, inside the file. An empty row, a row without the sentinel, and a missing station each give their own error; the station error lists the tokens after the sentinel |
| `Comparer.LocateColumnMetadataError` | convert.py:61-64 | when row n (1 to 4) after the station row is the first that is not a metadata row, the error names n and that row's text; an empty row gives the "empty" error |
| `Comparer.AllMetadataRows` | convert.py:62-64 | none of the four checks fails exactly when all four rows after the station row start with the sentinel |
| `Comparer.CheckMetadataRow` | convert.py:63-64 | one pass of the four-row loop passes exactly when row `lineno` is a metadata row; otherwise it reports that row |
| `Comparer.EatMetadataRows` | convert.py:61-64 | the four-row loop returns the error of the first failing row, or none |
| `Comparer.ScrollAndFindCol` | convert.py:46-65 | the method's result equals `LocateColumn`, whose meaning `LocateColumnSpec` states |
| `Comparer.ReadRow` | convert.py:35-38 | the lockstep loop stops exactly when both rows are blank; exactly one blank row is the "Files did not match" error |
| `Comparer.ReadRowSpec` | convert.py:39-44 | for two non-blank rows: differing first tokens give the date-mismatch error with the 0-based data line number. Otherwise the row is an entry exactly when both rows reach the station's column and both values parse. The entry is then (date, projected value - reference value) |
| `Comparer.ReadPair` | convert.py:33-44 | the loop body's result on one pair of rows equals `ReadRow` |
| `Comparer.Rows` | convert.py:32-36 | the rows the lockstep loop can reach end with a row that is not an entry: the loop always stops by the time the reference file runs out |
| `Comparer.LoadRowsError` | convert.py:32-45 | the run ends at the first pair of rows that is not an entry. It succeeds exactly when both rows there are blank; otherwise it fails with that row's error |
| `Comparer.LoadRowsKeys` | convert.py:44 | the table's keys after the run are its keys before plus exactly the dates read |
| `Comparer.LoadRowsKeeps` | convert.py:44 | a date that no row of the run carries keeps its value |
| `Comparer.LoadRowsValues` | convert.py:44 | every date read maps to the offset of the last row with that date |
| `Comparer.Comparer.constructor` | convert.py:20-21 | a new Comparer starts with an empty table |
| `Comparer.Comparer.GetDiff` | convert.py:23-24 | a known date gives its stored offset; an unknown one gives the `KeyError`; the hour is ignored |
| `Comparer.Comparer.LoadData` | convert.py:25-45 | the table and the error left by `_load_data` are those of `Load`: locate both columns, then the lockstep run from the two first data rows |
| `Comparer.Comparer.ReadRowAt` | convert.py:33-34 | the pair read at the two read positions is data row r |
| `Comparer.Comparer.ReadDataRows` | convert.py:31-45 | the `while True` loop leaves the table and error of `LoadRows` over the data rows |
| `Text.StripSpec` | convert.py:35-37 | `strip()` is empty exactly when the text is all whitespace; otherwise it starts and ends with non-whitespace |
| `Text.StripParts` | convert.py:35-37 | `strip()` removes only leading and trailing whitespace: it is a slice of the text with whitespace on both sides |
| `Text.SplitWordsEmpty` | convert.py:39-41 | `split()` gives no token exactly when the text is blank, so `split()[0]` exists exactly for non-blank rows |
| `Text.SplitWordsAreWords` | convert.py:39-40 | every token of `split()` is non-empty and holds no whitespace |
| `Text.SplitWordsOfJoin` | convert.py:54 | `split()` of words joined by single spaces gives back those words |
| `Text.SplitSpec` | convert.py:99 | no field of `split(',')` holds a comma, and joining the fields with commas gives back the line |
| `Text.SplitOfJoin` | convert.py:117 | splitting at commas a join of comma-free fields gives back the fields |
| `Text.IndexOf` | convert.py:58 | `list.index`: absent exactly when the value is not in the list; otherwise the first position holding it |
| `Numbers.IntToStringSpec` | convert.py:113 | `str(n)` is a minus sign for negative n, then digits; it holds no whitespace and no comma |
| `Numbers.NatToStringSpec` | convert.py:113 | `str(n)` for n >= 0 is digits without a leading zero, whose value is n |
| `Numbers.ParseIntSpec` | convert.py:104-106 | `int()` accepts exactly an optionally signed run of ASCII digits, with its signed value (Python also accepts digit-group underscores, which the model refuses; see "## Left out") |
| `Numbers.ParseIntOfIntToString` | convert.py:104 | `int(str(n)) == n` |
| `Numbers.ParseDecimalSpec` | convert.py:44 | `float()` refuses the empty text and agrees with `int()` wherever `int()` succeeds |
| `Numbers.ParseDecimalOfIntToString` | convert.py:44 | `float(str(n)) == n` |
| `Numbers.ParseDecimalOfParts` | convert.py:44 | `float()` of digits `w`, a point and digits `f` (such as `-0.93`, `.5` or `5.`) is all the digits read as one number over 10 to the number of fraction digits, which equals `w` plus `f` over 10 to `\|f\|`; a leading `-` negates it and a leading `+` keeps it |
| `Numbers.DigitsValueAppend` | convert.py:44 | the value of the digits `w` followed by `f` is `w`'s value shifted left by `\|f\|` places plus `f`'s value |
| `Numbers.Trunc` | convert.py:111 | `int(x)` truncates toward zero: the result lies between 0 and x, less than 1 from x |
| `Numbers.RightJustifySpec` | convert.py:113 | `rjust(width)` prepends only `' '` characters (so `strip()` removes them) and keeps the text as its suffix |
| `Transformer.FindColumns` | convert.py:85-92 | the lookup succeeds exactly when all five names are header names. Each column is the name's first index. A missing name gives the "Required column not found" error carrying the header list |
| `Transformer.ColumnsDistinct` | convert.py:86-90 | the five columns found are pairwise distinct (all ten pairs); in particular `T` and `T10N` differ |
| `Transformer.FormatFieldSpec` | convert.py:113 | `str(n).rjust(5)` is exactly 5 characters unless `str(n)` is longer, holds no comma, and is `str(n)` left-padded with `' '`; `int()` of its stripped text gives n back |
| `Transformer.Adjust` | convert.py:109-111 | `int(value + 10 * offset)` leaves the value unchanged when the offset is zero |
| `Transformer.ReadFieldsSpec` | convert.py:99-106 | a line's fields are read exactly when all five columns exist, `T` is an integer, and `T10N` is blank or an integer. The reading then holds the stripped station, the raw date, `T`, and `T10N` (absent exactly when blank). A missing station column is reported first |
| `Transformer.RewriteLineOutcome` | convert.py:99-109 | a data line is rewritten exactly when its fields are read, its station is the expected one, and its date has an offset. A foreign station gives the mismatch error with the expected station, the found station and the date, and is refused before the date is looked up |
| `Transformer.ShiftedSpec` | convert.py:110-116 | the output fields are as many as the input fields, and every field other than `T` and `T10N` keeps its exact text. `T` becomes the formatted shifted value, which reads back as that value. A blank `T10N` is kept unchanged; otherwise it is shifted like `T`. No field holds a comma |
| `Transformer.RewriteLineFields` | convert.py:99-117 | splitting the rewritten line at commas gives exactly the shifted fields, so the field count and the untouched fields survive the join |
| `Transformer.RewriteLineErrors` | convert.py:99-117 | a data line is never refused for a missing header column |
| `Transformer.HeaderAt` | convert.py:80 | the header position is a line starting with `#` |
| `Transformer.HeaderAtSpec` | convert.py:80 | no line before the header position starts with `#` |
| `Transformer.RunStepsOutcome` | convert.py:95-120 | the data loop writes the line of every step before the first aborting one. It then fails with that step's error, or, with no abort, returns the number of rewritten lines |
| `Transformer.RewritesCount` | convert.py:96-98 | among lines the loop gets past, the rewritten ones are exactly the non-blank ones |
| `Transformer.DataRun` | convert.py:95-120 | the data loop writes, in order, each blank line unchanged and each other line rewritten, up to the first line it cannot rewrite. It then fails with that line's error; past the last line it returns the number of non-blank lines |
| `Transformer.TransformCopiesPreamble` | convert.py:80-83 | `transform` first writes every line up to and including the first `#` line, unchanged and in order |
| `Transformer.TransformMissingColumn` | convert.py:84-92 | `transform` fails with the missing-column error exactly when one of `STN`, `YYYYMMDD`, `HH`, `T`, `T10N` is not a header name; it has then written only the preamble and the header |
| `Transformer.NoMissingColumnAfterHeader` | convert.py:93-120 | once the columns are found, `transform` never fails with the missing-column error |
| `Transformer.TransformData` | convert.py:93-120 | once the columns are found, `transform` writes the preamble and header, then the copy or rewrite of every data line before the first one it cannot rewrite. It fails with that line's error; if there is no such line it has written one line per input line and returns the number of non-blank data lines |
| `Transformer.TransformReadsSpec` | convert.py:79-120 | `transform` writes one line per line it reads, except a data line it cannot rewrite. When it succeeds it has read the whole file; when a column is missing it has read up to and including the header line |
| `Transformer.Transformer.constructor` | convert.py:68-72 | a new Transformer keeps its comparer, the hourly file unread and its station, and starts with an empty output |
| `Transformer.Transformer.ReadLine` | convert.py:80 | `readline()` gives the next line and uses it up; at the end of the file it gives the empty line |
| `Transformer.Transformer.Transform` | convert.py:73-120 | the output written and the result of `transform` are those of `TransformRun` on the unread lines, the station and the comparer's table; the lines after the `TransformReads` first ones stay unread |
| `Transformer.Transformer.CopyPreamble` | convert.py:79-83 | the preamble loop appends every line up to and including the first `#` line, returns that line, and leaves the lines after it unread |
| `Transformer.Transformer.TransformData` | convert.py:93-120 | the data loop's output and result are those of `RunSteps` over the steps of the data lines; it reads up to and including the first aborting line, or to the end |
| `Transformer.Transformer.TransformLine` | convert.py:95-98 | one pass of the data loop: a blank line is copied, any other line is rewritten or aborts |
| `Transformer.Transformer.RewriteRow` | convert.py:99-117 | the method's rewrite of a non-blank line, which calls `get_diff`, equals `RewriteLine` |

## Left out

- File I/O: opening and closing files (convert.py:27-28, 70-71) is not modelled. A file is its sequence of lines without terminators, and the output is a sequence of lines. So the `\r\n` newline translation on output (convert.py:71) and the `\n` that stays attached to the last field of a CSV line are not modelled. In particular, a rewritten `T` or `T10N` in the last column loses the line's `\n`; that is not captured.
- Floating point: `float()` (convert.py:44) is an exact decimal parse into `real`, and `int(temp_in + temp_diff)` (convert.py:111, 115) is exact truncation toward zero. IEEE-754 rounding (e.g. 11.9999...), exponents, `inf`, `nan` and digit-group underscores are not modelled.
- Numbers.ParseIntSpec: Python's `int()` also accepts underscores between digits (`int("1_0") == 10`, `int("+1_000") == 1000`). The model refuses them, so a `T` or `T10N` field written that way is `NotAnInteger` in the model where the script reads the number.
- Text: whitespace is Python's `isspace` over Latin-1. Wider Unicode whitespace and `int()`/`float()` on non-ASCII digits are not modelled.
- Transformer.Transformer.Transform: requires a line starting with `#` among the unread lines (`HasHeader`). Without one the script's preamble loop (convert.py:80) reads `""` forever; that non-terminating run is not modelled. This covers a second call after a first one that read to the end of the file.
- Comparer.Comparer.constructor: `__init__` also calls `_load_data` (convert.py:22). The constructor only creates the empty table, and loading is the separate call `LoadData`, which returns the error that `__init__` would raise.
- The hour argument of `get_diff` (convert.py:23) is taken and ignored, as in the script.
- The text of exception messages: errors are `ConvertError` values carrying the values the messages format, not the formatted strings.
- Script wiring: the `__main__` block, the path and station constants and the console output (convert.py:13-17, 122-127) are not modelled.
