# Financial statement to tables: a verified model of `conversion.py`

`conversion.py` reads the text of a quarterly financial statement, one line at
a time, and turns it into five tables. The tables are the statement of
operations, the balance sheet, the statement of cash flows, net sales by
reportable segment and net sales by category. This project models that
conversion in Dafny, from the extracted lines up to the cleaned tables, and
proves what each step does:

- `Cleaning` is the cleaning loop. It substitutes `!`, the right quote and the
  em dash, collapses whitespace runs and strips each line.
- `Scanner` is the number pattern `BIG_NUM_RE`. It is a step-by-step matcher,
  proved to give the longest token at each position. Its `findall` and
  `search` are proved to be the leftmost, non-overlapping search for the
  pattern's language, which is defined independently.
- `Numbers` is `to_float`. Commas are dropped, a number in parentheses is
  negative, and `float` is modelled on the strings a token can reach it as.
- `Rows` covers `parse_line` and the row loop. The loop builds one row per
  line with two numbers or more, or stops at the first number `float`
  rejects.
- `Sections` covers `find_idx`, the `sections` dict, `slice_df` with its
  `10**9` sentinel, and the five slices.
- `Labels` covers `clean_labels`: the four-step `label_clean` chain and
  `drop_duplicates`, which keeps the first row of each label.
- `Pipeline` is the whole conversion and its three ways of stopping.
- `Text` holds shared string helpers (`strip`, removal, lower case,
  whitespace).
- `Results` holds the `Option` and `Result` types.

The two loops of the script are methods proved against the functions that
specify them: `Cleaning.CleanLines` for lines 20-25 and `Rows.BuildRows` for
lines 38-53. `Pipeline.Run` chains them with the rest. Everything else in the
script is an expression or a filter and is modelled as a function.

A Python exception that ends the script is a `Failure`:

- `NotAFloat(line, text)`: `float` raised on a number of a line.
- `SectionHeaderNotFound(keyword)`: `find_idx` raised.
- `NoRows`: no line gave a row. The `DataFrame` then has no `line_idx` column,
  and the first `slice_df` raises.

## Model

| member | source | states |
|---|---|---|
| Cleaning.SubstituteIsPointwise | conversion.py:22-23 | The four `replace` calls act character by character: `!` becomes `$`, the right quote becomes `'`, the em dash becomes `-`, and every other character and the length are unchanged. |
| Cleaning.SubstituteRemovesSymbols | conversion.py:22-23 | After the replacements no `!`, right quote or em dash is left. |
| Cleaning.CollapseShape | conversion.py:24 | The result of `re.sub(r'\s{2,}', ' ', s)` has no two adjacent whitespace characters, is no longer than `s`, starts with whitespace exactly when `s` does, and adds only spaces. |
| Cleaning.CollapseRun | conversion.py:24 | A whitespace run between two non-whitespace characters becomes exactly one space when it is two characters or longer, and stays as it is when it is one character. The text on either side is collapsed on its own. |
| Cleaning.CollapseKeepsText | conversion.py:24 | Collapsing keeps every non-whitespace character, in order. |
| Cleaning.CollapseFixpoint | conversion.py:24 | Collapsing leaves a string unchanged exactly when it has no two adjacent whitespace characters. |
| Cleaning.TrimSpaces | conversion.py:25 | `strip()` adds no character, keeps the no-adjacent-whitespace property, and leaves no whitespace at either end. |
| Cleaning.CleanLine | conversion.py:22-25 | A cleaned line has no `!`, right quote or em dash, no two adjacent whitespace characters, and no whitespace at either end. |
| Cleaning.CleanLineKeepsText | conversion.py:22-25 | Cleaning keeps the non-whitespace text of the substituted line, in order. |
| Cleaning.CleanLineFixpoint | conversion.py:22-25 | Cleaning leaves a line unchanged exactly when it is already clean, so cleaning twice is cleaning once. |
| Cleaning.CleanedLines | conversion.py:20-25 | `clean_lines` has one line per extracted line, each the cleaning of its own line and each clean. |
| Cleaning.CleanLines | conversion.py:20-25 | The loop gives one cleaned line per extracted line, in order, each being the cleaning of its own line. |
| Cleaning.CleanOneLine | conversion.py:22-25 | The loop body's reassignments of `ln` give the cleaned line. |
| Scanner.MatchSound | conversion.py:28 | Every match of the scanner is a token of the pattern's language, cut where the scanner cuts it. |
| Scanner.MatchLongest | conversion.py:28 | Wherever a token of the language starts, the scanner finds a match there and no token at that start is longer: backtracking order and "longest" agree for this pattern. |
| Scanner.ScanFrom | conversion.py:31 | The spans `findall` lists from a position lie after it and inside the line, each nonempty, left to right without overlap. |
| Scanner.ScanIsFindAll | conversion.py:28-31 | `findall` lists the leftmost longest token, then keeps searching after it. Nothing is skipped before a span, no span could be longer, and no token starts after the last span. |
| Scanner.ScanMatches | conversion.py:31 | Every span `findall` lists is a match of the pattern at its start. |
| Scanner.Tokens | conversion.py:31 | The spans of `findall` on a line are nonempty, inside the line, in order without overlap, and each is a match of the pattern at its start. |
| Scanner.SearchFromSpec | conversion.py:33 | `search` finds a match of the pattern with no match starting between the search's start and it, or nothing when no position starts a match. |
| Scanner.SearchIsFirstToken | conversion.py:33 | `search` finds the first span `findall` lists, and nothing when that list is empty. |
| Numbers.ToFloat | conversion.py:45-50 | When `float` raises, the text it was given holds no comma and only characters of the token. |
| Numbers.ParseDecimalOfShape | conversion.py:50 | `float` reads an optional minus sign, digits and an optional fraction as the number they write. |
| Numbers.UnparenOfParts | conversion.py:47-50 | A number with an optional `(` and an optional `)` reads exactly when both or neither are there. It is then negated in parentheses; otherwise `float` raises on the text with its parenthesis. |
| Numbers.TokenToFloat | conversion.py:45-50 | For every match of the pattern, `to_float` succeeds exactly when the token's first character is `(` iff its last is `)`. It then gives the value the token writes without its commas, negated in parentheses. When it fails, the error carries the token without its commas. |
| Numbers.NegativeExample | conversion.py:45-50 | `to_float("(1,234)")` is -1234. |
| Rows.ParseLine | conversion.py:30-36 | `parse_line` gives nothing exactly when `findall` finds fewer than two numbers. |
| Rows.ParseLineTokens | conversion.py:30-36 | A parsed line's numbers are the texts of the first two spans of the leftmost-longest search, in order, both tokens of the pattern. Its label is the stripped text before the first span. |
| Rows.LabelCuts | conversion.py:34 | The label is one contiguous piece of the text before the first number. Only colons and whitespace are cut from its ends, and it neither starts nor ends with whitespace. |
| Rows.LabelNoColonEdges | conversion.py:34 | When the only whitespace before the first number is the plain space, the label neither starts nor ends with `:`. |
| Rows.TabKeepsColon | conversion.py:34 | With a tab between two colons the label keeps a leading colon: `":\t:Net"` gives `":Net"`. |
| Rows.RowOf | conversion.py:40-53 | A line gives no row exactly when it has fewer than two numbers. A row carries the line's index and text, and an error names the line's index. |
| Rows.RowOfSpec | conversion.py:40-53 | Stated on the matches of the pattern: a line gets past the loop exactly when its first two numbers balance their parentheses. The row then holds the stripped text before the first match and the amounts the two matches write. Otherwise the error carries the first of the two that does not balance, without its commas. |
| Rows.LineToRow | conversion.py:40-53 | The loop body on line `idx` gives the outcome of that line. |
| Rows.BuildRows | conversion.py:38-53 | The loop gives the table of the lines, or the failure that stops it. |
| Rows.RowsOfOk | conversion.py:38-53 | The loop builds its table exactly when every line with two numbers or more has two numbers `to_float` accepts. |
| Rows.RowsOfTable | conversion.py:38-53 | A built table has exactly one row per line with two numbers or more, in the order of the lines with strictly increasing `line_idx`. Each row holds its own line's label, numbers and text. |
| Rows.RowsOfFailure | conversion.py:38-53 | A failing loop stops at the first line with two numbers or more where a number is rejected. It reports that line's index and the first rejected text, and every line before it passes. |
| Rows.NumberValues | conversion.py:45-52 | The two numbers of a row are read from the first two matches of its line: balanced parentheses are required, the value is the written one, and it is negated in parentheses. |
| Sections.HitsFrom | conversion.py:59 | The comprehension lists, in increasing order, only lines that contain the keyword, ignoring case. |
| Sections.FindIdx | conversion.py:58-62 | `find_idx` gives a line that contains the keyword, ignoring case, or fails with the error naming the keyword. |
| Sections.FindIdxIsLeast | conversion.py:58-62 | `find_idx` gives the least index of a line containing the keyword, ignoring case. It fails with the error naming the keyword exactly when no line contains it. |
| Sections.LocateSections | conversion.py:64-70 | The dict is built exactly when each of the five headers occurs in some line, and every start is a line of the document. Otherwise the error names one of the five headers. |
| Sections.LocateSectionsSpec | conversion.py:64-70 | The dict is built exactly when all five headers occur, each start being the first line that contains its header. Otherwise the error names the first header in dict order that no line contains. |
| Sections.SliceRows | conversion.py:72-75 | `slice_df(start, end)` keeps only rows of the table with `start <= line_idx`, and `line_idx < end` when an end is given. |
| Sections.KeepMembers | conversion.py:72-75 | A row is in `slice_df(start, end)` exactly when it is in the table and `start <= line_idx < end`. |
| Sections.KeepAppend | conversion.py:75 | Slicing keeps the order of the table: the slice of two tables one after the other is the two slices one after the other. |
| Sections.KeepAscending | conversion.py:75 | A slice of a table in line order is in line order. |
| Sections.SliceEmpty | conversion.py:72-75 | With an end at or before the start the slice is empty: nothing checks `start <= end`. |
| Sections.SliceToEnd | conversion.py:73-75 | Without an end, the slice keeps exactly the rows with `start <= line_idx < 10**9`. |
| Sections.KeepSplit | conversion.py:75 | On a table in line order, the rows of `[lo, hi)` are those of `[lo, mid)` followed by those of `[mid, hi)`. |
| Sections.SliceSections | conversion.py:77-82 | Each of the five tables keeps only rows of the table between its own header and the bound of lines 77-82: the balance sheet for operations and categories, the cash flows for the balance sheet, the categories for segments, and no bound for the cash flows. |
| Sections.StatementsPartition | conversion.py:77-79 | When the headers come in the order operations, balance sheet, cash flows, the three statement tables, one after the other, are exactly the rows from the operations header on. |
| Labels.JoinWordsShape | conversion.py:91 | The replacement of runs of spaces and slashes leaves only underscores and the other characters of its input. On an input without underscores it never leaves two in a row, and it starts with one exactly when the input starts with a space or a slash. |
| Labels.JoinRun | conversion.py:91 | A run of spaces and slashes between two other characters becomes exactly one underscore, the text on either side being joined on its own. |
| Labels.LabelClean | conversion.py:87-92 | `label_clean` uses only lower-case `a`-`z`, `&` and `_`, and never has two adjacent `_`. |
| Labels.StripSymbolsRedundant | conversion.py:88-89 | The first replacement changes nothing the second keeps: after both, the text is the same as after the second alone. |
| Labels.LabelCleanKeepsWords | conversion.py:87-92 | `label_clean` keeps every letter and `&` of the label, lower-cased and in order. |
| Labels.LabelCleanOfWords | conversion.py:87-92 | On a label of letter words with single spaces between them, `label_clean` is the stripped label, lower-cased, with an underscore for each space. |
| Labels.DropDuplicates | conversion.py:93 | `drop_duplicates` keeps only rows of the table, no more of them, and no two with the same `label_clean`. |
| Labels.DropDuplicatesIsFirstOccurrences | conversion.py:93 | The one-pass keep-first scan of `drop_duplicates` agrees with the reference definition that removes every row whose label occurs earlier. |
| Labels.DropDuplicatesSpec | conversion.py:93 | After `drop_duplicates`, no two rows share a `label_clean` and the same labels are present. The rows kept are exactly the first row of each label. |
| Labels.DropDuplicatesInOrder | conversion.py:93 | The rows `drop_duplicates` keeps stand at strictly increasing positions of the input: it keeps the input's order. |
| Labels.CleanLabels | conversion.py:85-95 | `clean_labels` gives no more rows than it was given, and no two with the same `label_clean`. |
| Labels.CleanLabelsSpec | conversion.py:85-95 | A cleaned table: every row carries the `label_clean` of its own label, labels are unique, no label is lost, and the rows kept are exactly the first of each label. |
| Pipeline.CleanSliceIsTable | conversion.py:72-95 | A cleaned slice of the rows built from the lines holds only rows of its own range, each the row of its own line with its own label, labels unique and in line order. Every line of the range that `parse_line` accepts has its label in the table, and no such line above a kept row has that row's label. |
| Pipeline.Convert | conversion.py:20-101 | The conversion succeeds exactly when, once the lines are cleaned, every number balances its parentheses, every header occurs and some line has two numbers. |
| Pipeline.ConvertOutcome | conversion.py:38-82 | On the cleaned lines, the conversion succeeds exactly when every line's first two numbers balance, every header occurs and some line has two numbers. Otherwise the first failing check in script order decides the error: the first line whose numbers do not balance, with that number's text; then the first header in dict order that no line contains; then the empty table. |
| Pipeline.ConvertTables | conversion.py:77-101 | On success each of the five tables is the table of the lines from its header to the next bound of lines 77-82. It holds only rows of its range, each the row of its own line, labels unique and in line order. Every accepted line of the range has its label present, and the row kept for a label is its first line in the range. |
| Pipeline.TabulateTables | conversion.py:77-101 | The five cleaned slices of a table built from the lines are the tables of their ranges, in the sense above. |
| Pipeline.RowsOfBuilt | conversion.py:38-53 | A table the loop builds has each row as the row of its own line, in line order, with a row for every line `parse_line` accepts. |
| Pipeline.Run | conversion.py:20-101 | The script, with its two loops run as methods, gives the conversion's tables or its failure. |

## Left out

- PDF extraction (lines 13-17) is a foreign library and file I/O. The model starts from `raw_lines`, the extracted lines as a sequence of strings.
- The statistics (`describe`, lines 104-113) and `pct_change` (lines 115-116) are left out because they are floating-point numerics.
- The Excel export (lines 118-146) and the charts (lines 148-181) are left out because they are file and screen output.
- `fillna(0.0)` (line 94) is left out: every row carries both numbers, so it changes nothing.
- Numbers are exact `real`s, so the rounding of binary floats is not modelled.
- Digits (`\d`), `isspace`, `[A-Za-z]` and `lower()` are modelled on their ASCII and Unicode-whitespace characters. Non-ASCII digits and letters are not modelled.
- `float` is modelled only on the strings a token of the pattern can become. Its other syntax (exponents, `inf`, underscores) cannot reach it.
- The `DataFrame` is modelled as a sequence of rows, without its index or column machinery. The `raw` column is kept.
- The em dash replacement is modelled as written: the en dash is not replaced.
- `Rows.LabelNoColonEdges`: holds only when the text before the first number has no whitespace other than the plain space. A tab between two colons leaves a colon at the label's edge, as `Rows.TabKeepsColon` shows, so the unconditional "never begins or ends with `:`" does not hold for the code.
- `Sections.StatementsPartition`: requires headers in the order operations, balance sheet, cash flows, and all before line `10**9`. The script relies on that order but never checks it.
- `Sections.SliceToEnd`: states the exact `10**9` bound. Rows at or beyond it are dropped: the end is not treated as unbounded.
- `Labels.LabelCleanOfWords`: states the label example `" Cash and cash equivalents "` → `"cash_and_cash_equivalents"` for every label of single-spaced letter words rather than for that one string.
