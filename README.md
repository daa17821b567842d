# Catalyst invoice reconciliation engine, in Dafny

This project models the decision logic of a small reconciliation tool. A store sends
catalytic converters to a buyer. The buyer's spreadsheet says what the lot should be worth.
The invoice says what was billed. The tool:

1. finds the amount column of the spreadsheet's `Imput` sheet: the first column, in
   declared order, in which some cell's text contains `Preço Tt`;
2. sums the genuinely numeric cells of that column (missing cells and text cells, even
   numeric-looking text, do not count);
3. finds the first place in the invoice text where `Total Liquido:` is followed by optional
   whitespace and an amount in Brazilian notation (`1.234,56`), and parses that amount;
4. computes the gain (spreadsheet total minus invoice total) and classifies it as no
   difference (below one cent), a gain, or a shortfall;
5. appends a one-row summary (date, store, both totals, gain) to the history file, creating
   the file if it does not exist, and rewrites the whole file;
6. groups the history by (year-month, store) and sums the gains for the monthly chart.

Money is kept as integer cents throughout.

Modules:

- `Wrappers`: `Option` and `Result`.
- `Money`: digit strings, the invoice's number notation, `ParseLocale`, `FormatLocale` and the round trip.
- `Table`: cells, columns, the column locator (`LocateColumn`, a loop as in the source) and the numeric-only total.
- `Invoice`: a hand-written scanner for `Total Liquido:\s*([\d.]+,\d{2})`. `PatternAt` states the regular expression directly. A proof shows the scanner agrees with it. `ExtractTotal` takes the leftmost match.
- `Reconcile`: the classifier and the summary record.
- `History`: the history file as a class whose contents are `None` while the file is absent.
- `Aggregate`: the monthly group-by-sum and its totals.
- `Pipeline`: one run from inputs to report, including both early stops.
- `Scenarios`: worked examples.

Two points where the model follows what the code does rather than what one might expect:

- There is no parse error once the invoice pattern has matched. A parser that insisted on
  `digits(.digits)*,dd` would reject `..5,00` or `1..2,34`. The code's pattern
  `[\d.]+,\d{2}` captures them, and removing the dots and calling `float` always succeeds
  on what it captures. `ParseLocale` therefore accepts every captured shape
  (`IsLocaleAmount`): an integer part with no digits reads as 0.
- The history's columns are the code's Portuguese names `Data, Loja, Valor Planilha,
  Valor Nota Fiscal, Ganho`, which `Reconcile.Record` follows.

## Model

| member | source | states |
|---|---|---|
| `Table.LocateColumn` | app.py:25-29 | Returns the index of the first column, in declared order, in which some cell's text contains the heading. Returns None exactly when no column has such a cell. |
| `Table.LabelOnlyInText` | app.py:27 | Only a text cell's string form can contain `Preço Tt`. The text of a number or of a missing cell (`nan`) never does. |
| `Table.LabelledColumnHasText` | app.py:27 | A column that qualifies for `Preço Tt` holds at least one text cell. |
| `Table.DropMissingKeepsNumbers` | app.py:35-37 | Dropping missing cells (`dropna`) before the numeric filter does not change the total: it equals the sum of the numeric cells' values. |
| `Table.NumericValuesExact` | app.py:36 | A value survives the `isinstance` filter exactly when some cell of the column is a number with that value. |
| `Table.TotalIsSumOfContributions` | app.py:35-37 | The column total is the cell-by-cell sum of each cell's contribution: its value if it is numeric, 0 otherwise. The empty column totals 0. |
| `Table.TotalAppend` | app.py:37 | The total of two blocks of cells is the sum of their totals. |
| `Table.TextCellIgnored` | app.py:36-37 | Replacing any cell with text, however numeric that text looks, removes exactly that cell's numeric value from the total. |
| `Table.NoNumbersTotalZero` | app.py:35-37 | A column with no numeric cell, the empty column included, totals 0. |
| `Money.DigitsValueAppend` | app.py:50 | The decimal value of concatenated digit strings is the left value shifted by the right part's length, plus the right value. |
| `Money.Digits` | app.py:50 | Gives non-empty decimal digits whose value is n. |
| `Money.Pad` | app.py:50 | Gives exactly `width` digits whose value is n. |
| `Money.StripDotsDigits` | app.py:49 | Removing the dots from a `[\d.]*` text leaves only digits. |
| `Money.StripDotsAppend` | app.py:49 | `replace(".", "")` distributes over concatenation. |
| `Money.ReplaceCharAppend` | app.py:49 | `replace(",", ".")` distributes over concatenation. |
| `Money.ToPointDecimal` | app.py:49 | The two replacements turn a captured amount into digits, a point and the two fraction digits. The digits are those of the integer part with its dots removed. |
| `Money.ParseLocale` | app.py:49-50 | Value in cents = (the value of the dot-stripped integer part, 0 if that part is empty) × 100 + the two fraction digits. |
| `Money.FormatLocale` | app.py:45 | Formatting cents with a `.` before every group of three integer digits and `,dd` gives text of the shape the invoice pattern captures. |
| `Money.GroupedValue` | app.py:49-50 | Removing the thousands separators from a grouped integer gives back its value. |
| `Money.FormatParseRoundTrip` | app.py:45-50 | Parsing a formatted value gives back the value. |
| `Money.ParseFormatParse` | app.py:45-50 | Parsing is stable under re-formatting: parse(format(parse(s))) = parse(s). |
| `Money.DotsIgnored` | app.py:49 | Inserting a `.` anywhere in the integer part keeps the text capturable and does not change its value. |
| `Invoice.SpaceEnd` | app.py:45 | `\s*`: the end of the maximal whitespace run starting at i. |
| `Invoice.AmountEnd` | app.py:45 | `[\d.]+` (greedy): the end of the maximal run of digits and dots starting at i. |
| `Invoice.MatchAt` | app.py:45 | When the pattern matches at a position, the captured group has the shape `[\d.]+,\d\d`. |
| `Invoice.MatchAtIsPattern` | app.py:45 | The scanner matches at p exactly when the regular expression does, for some split into label, whitespace, amount run, `,dd`. Every such split captures the same text the scanner returns. |
| `Invoice.FirstMatch` | app.py:45 | `re.search`: the leftmost position from which the pattern matches. None exactly when it matches nowhere. |
| `Invoice.ExtractTotal` | app.py:45-50 | None (the run stops) exactly when the pattern matches nowhere. Otherwise, the parsed capture at the leftmost match. |
| `Invoice.ExtractAtFirstMatch` | app.py:45-50 | If the pattern matches at p and nowhere before p, the total is the parsed capture at p. Later matches never matter. |
| `Invoice.MatchAmountAt` | app.py:45 | The label, one space and a capturable amount, with anything after them, match at that position and capture exactly that amount. |
| `Invoice.MatchFormattedAt` | app.py:45 | The label, one space and a formatted amount match there and capture the formatted text. |
| `Invoice.FormattedPrefix` | app.py:45 | The label, one space and a formatted amount placed after any prefix stand at the prefix's length. |
| `Invoice.ExtractFormatted` | app.py:45-50 | `Total Liquido: ` + format(c) + anything extracts to exactly c. This is the round trip through the scanner. |
| `Invoice.NoMatchWithoutLabel` | app.py:45 | No match starts at a position without the label's first letter. |
| `Invoice.NoMatchAfterBrokenLabel` | app.py:45 | A label whose whitespace is followed by a character that cannot start an amount does not match. |
| `Invoice.NoMatchInBrokenHead` | app.py:45 | No match starts inside a broken label followed by text without a `T`. |
| `Invoice.BrokenLabelSkipped` | app.py:45-50 | A label not followed by an amount is skipped. The next complete match gives the total. |
| `Invoice.SpaceEndOfRun` | app.py:45 | A whitespace run followed by a non-space character ends at that character. |
| `Reconcile.Classify` | app.py:57-62 | Neutral exactly when \|gain\| is below the one-cent tolerance. Positive exactly when gain ≥ 1 cent. Negative exactly when gain ≤ −1 cent. So the three cases are exhaustive and exclusive, and a one-cent difference is not neutral. |
| `Reconcile.ClassifyCompares` | app.py:55-62 | For the run's totals: neutral iff they are equal; gain iff the spreadsheet total is larger; shortfall iff it is smaller. |
| `Reconcile.ClassifyAntisymmetric` | app.py:57-62 | Negating the gain swaps gain and shortfall and keeps neutral neutral. |
| `Reconcile.NewRecord` | app.py:71-77 | The summary row carries the date, the store and both totals, and its gain equals Valor Planilha − Valor Nota Fiscal. |
| `History.HistoryFile.Load` | app.py:84-85 | Reading an absent history gives no rows. Reading a stored history gives its rows. |
| `History.HistoryFile.Append` | app.py:83-90 | The new contents are the prior rows (none if the file was absent), unchanged and in order, followed by the new row. They are written back in full and returned. |
| `History.AppendThenLoad` | app.py:84-90 | Loading after an append gives the prior rows followed by the new row. |
| `History.AppendKeepsConsistent` | app.py:71-90 | If every prior row's gain matches its totals, every row after the append does too. `Pipeline.Run` relies on it. |
| `Aggregate.AddToKeys` | app.py:96 | Adding a gain keeps the group keys and their order, and opens a group at the end for a new key. |
| `Aggregate.AddToUnique` | app.py:96 | Adding a gain never creates two groups with the same key. |
| `Aggregate.MonthlyUniqueKeys` | app.py:96 | Each (year-month, store) key appears in at most one group. |
| `Aggregate.MonthlyKeysCover` | app.py:94-96 | A key has a group exactly when some history record has that key. |
| `Aggregate.GroupTotalAt` | app.py:96 | With distinct keys, the group at a position is the group found for its key. |
| `Aggregate.AddToTotal` | app.py:96 | Adding a gain to key k raises k's total by that gain (from 0 for a new key) and leaves every other key's total unchanged. |
| `Aggregate.MonthlyTotals` | app.py:94-96 | The total of each key's group is the sum of the gains of exactly the records with that key. |
| `Aggregate.MonthlyTotalAt` | app.py:94-96 | The same, for the group at each position. |
| `Aggregate.KeyGainAbsent` | app.py:96 | A key that no record has sums to 0. |
| `Aggregate.AddToStoreTotal` | app.py:96 | Adding a gain raises the store's summed group totals by that gain, and only for the gain's store. |
| `Aggregate.MonthlyStoreTotals` | app.py:94-96 | For every store, the totals of its groups over all months add up to the sum of Ganho over all its history records. |
| `Aggregate.MonthlySingle` | app.py:94-96 | An empty history has no groups. A single record gives exactly one group, its own key with its gain. |
| `Pipeline.Run` | app.py:21-96 | Column not found exactly when no column has the heading. Invoice total not found exactly when a column exists but the pattern matches nowhere. Either failure leaves the file untouched. On success, the row holds the first labelled column's numeric total, the extracted invoice total and their difference. The outcome is the classification. The file holds the prior rows plus the row. The monthly groups are the aggregate of that history. If every prior row's gain matched its totals, every row of the new history does. |
| `Scenarios.SheetTotalExample` | app.py:35-37 | Cells 100.50, "N/A", 200.25 and a missing cell total 300.75. |
| `Scenarios.NumericLookingTextExample` | app.py:36 | The text "200.25" beside the number 100.50 totals 100.50. |
| `Scenarios.FormatExample` | app.py:45 | 1234.56 formats as `1.234,56`. |
| `Scenarios.InvoiceTotalExample` | app.py:45-50 | `Total Liquido: 1.234,56` extracts to 1234.56. |
| `Scenarios.ShortfallExample` | app.py:55-77 | 300.75 against 1234.56 gives gain −933.81, classified as a shortfall. |
| `Scenarios.MonthlyExample` | app.py:94-96 | The record (2024-03-01, Itaim, 300.75, 1234.56) alone aggregates to the single group (2024-03, Itaim, −933.81). |
| `Scenarios.LocateExample` | app.py:25-29 | A heading in the second row of the second column, ahead of a third column that also has it, selects the second column. |

## Left out

- The web page (page setup, uploads, success, error and markdown messages, the store
  selector, the table display) and the bar chart (app.py:98-108). The store and the date
  are plain inputs to `Pipeline.Run`. `datetime.today()` is the `today` parameter.
- Reading the Excel workbook and its `Imput` sheet, and extracting the PDF text (page
  join). Their outputs are the `Sheet` and `invoiceText` inputs.
- The CSV file itself: the existence check, `read_csv`, `to_csv`, and the text form of
  dates and numbers in it. The file is `HistoryFile.stored`, with `None` for an absent
  file. Re-reading stored dates with `pd.to_datetime` is modelled by keeping `Date` values.
  The `Ano-Mês` text is modelled by the (year, month) pair it is made from.
- Floating point. All amounts are exact integer cents, so the sums and the parse have no
  rounding. The invoice amount always has exactly two fraction digits. Sub-cent values can
  only come from spreadsheet cells (such as 100.005) and from float rounding in the sum.
  The model cannot represent them.
- `Reconcile.Classify`: with whole cents, the 0.01 tolerance band contains only a gain of
  exactly zero, so a one-cent difference is never neutral. That holds only for the model.
  With floats, a real one-cent difference can fall inside the band: `0.03 - 0.02` is
  `0.0099…`, which the source classifies as no difference.
- `Table.DropMissingKeepsNumbers`: pandas reads an empty cell as `NaN`, a `float`, which
  passes the `isinstance` filter. In the source, `dropna` is what keeps `NaN` out of the
  filtered values. Without it the total would still be the same, because `sum()` skips
  `NaN`. The model has a separate `Missing` cell that is never numeric, so the lemma's
  claim that the filtered values are equal holds only for the model. The claim about the
  total is the source's.
- `Table.NumericValues`: Python's `bool` counts as `int` for `isinstance`, so a boolean
  cell would be summed as 0 or 1. The model has no boolean cells.
- `Table.CellText`: the text of a number is written `-ddd.dd`. Python's `str` of a float
  can differ (`100.5`, `1e+16`). The only thing used is that neither form contains the
  letter `P` that starts the heading.
- `Table.LocateColumn` returns the column's position rather than its name. The source
  indexes the frame by name, which differs only when two columns share a name.
- `Table.Contains`: pandas' `str.contains` treats its argument as a regular expression.
  `Preço Tt` has no special characters, so a plain substring test is equivalent.
- `Invoice.AmountEnd` and `Money.IsDigit`: `\d` is taken as ASCII `0`-`9`. Python's `\d` on
  text also matches other Unicode decimal digits, which `float` would accept. `\s` is
  modelled as the full set of characters for which Python's `str.isspace` holds.
- `Aggregate.Monthly` gives groups in order of first appearance. pandas sorts them by
  (`Ano-Mês`, `Loja`). The chart does not depend on the order.
- The catch-all `except` (app.py:110-111) only displays errors. The only failures modelled
  are the two early stops.
- Concurrent runs racing on the history file are not modelled. The last writer wins, and a
  single run is modelled.
