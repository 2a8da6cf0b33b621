# JSE Market Watch: the scraper and analyser, modelled in Dafny

JSE Market Watch is a small dashboard for the Jamaica Stock Exchange's weekly quotes page. This model covers its two working classes in `app.py`:

- **`JSEScraper`** picks three tables by position from the page: the indices, the ordinary share quotes and the preference share quotes. It removes the "Unnamed" columns that the HTML table parser creates for empty headers.
- **`MarketAnalyzer`** ranks a quotes table by its weekly change, giving the top `n` gainers and the top `n` decliners. It can also stack several tables into one market-wide table.

Everything is modelled as pure functions over values.

- A table (`Frames.Dataset`) is a list of column labels plus a list of rows, one cell per column.
- A cell is `Num(real)`, `Text(string)` or `Missing`.
- A label is a string (`Name`) or something else (`Other`).
- A coerced change is `Option<real>`.

`get_top_movers` overwrites the change column only on its private `df.copy()`. Its callers therefore see a pure function: a per-row coercion followed by two stable top-`n` selections. Because every value in the model is immutable, the caller's table cannot change.

Modules, one per concern of the source:

- `Wrappers`: `Option` and `Result`.
- `Frames`: the table representation and `_clean_table`.
- `Numeric`: turning a change cell into a number (`str(x).replace('%', '')` followed by `pd.to_numeric(..., errors='coerce')`).
- `Analyzer`: `get_top_movers` and `combine_tables`.
- `Scraper`: the positional table selection in `fetch_tables`.
- `Dashboard`: the market summary feeding the fetched quote tables to `combine_tables`.
- `Scenarios`: worked cases: a ranking of three quotes and single change cells.

Behaviour at the edges, as the code has it:

- **Percent signs.** `str(x).replace('%', '')` removes every `%` in the text, not only a trailing one (`Numeric.CoerceIgnoresPercentSigns`).
- **Fetch errors.** `fetch_tables` returns `None` for every failure: too few tables, and any exception raised while fetching or parsing. No partial set of tables is returned.
- **Combining different schemas.** `pd.concat` unites the labels in order of first appearance and fills absent cells with `Missing`. Tables with identical labels are simply stacked.
- **The value of `n`.** `get_top_movers` does not check `n`. The model takes any natural `n`, and `0` gives empty rankings.
- **Rows with no change.** A change that does not parse becomes NaN and raises nothing. How `nlargest`/`nsmallest` then treat such rows is under "## Findings".
- **One column for both.** When the symbol label and the change label name the same column, the projection reads the coerced copy, so each mover's symbol is its change as a number (`Analyzer.SharedColumnSymbols`).

## Model

| member | source | states |
|---|---|---|
| `Frames.KeptPositions` | app.py:43 | The positions the boolean column mask keeps are exactly those whose label does not start with "Unnamed". They are listed in increasing order. |
| `Frames.Clean` | app.py:40-43 | The cleaned columns are the reference filter `Surviving` of the input labels. Every kept column carries the same cells as the input column at its kept position. The row count is unchanged and the result is well formed. |
| `Frames.SelectedLabelsSurvive` | app.py:43 | Selecting columns by the `~str.contains('^Unnamed', na=False)` mask gives exactly the order-preserving filter of the labels. |
| `Frames.CleanRemovesExactlyUnnamed` | app.py:43 | A label survives cleaning if and only if it was present and does not begin with "Unnamed". A label that is not a string always survives, because of `na=False`. |
| `Frames.CleanIdempotent` | app.py:40-43 | Cleaning a cleaned table returns it unchanged. |
| `Frames.IndexOf` | app.py:54 | `df[label]` finds the first column carrying the label. The result is `None` exactly when no column carries it. |
| `Numeric.StripPercent` | app.py:56 | `replace('%', '')` removes every percent sign and keeps every other character. Text without a percent sign is unchanged. |
| `Numeric.StripPercentAppend` | app.py:56 | Removing percent signs from joined text is the same as removing them from each part and joining. |
| `Numeric.ParseUnsigned` | app.py:56 | An unsigned decimal parses to a non-negative value, and only if every character is a digit or the point. With `Numeric.ParseUnsignedSyntax`, it parses exactly when it is digits with at most one point and at least one digit. |
| `Numeric.ParseDecimal` | app.py:56 | A string parses only if it is non-empty and made of digits and points, with at most a sign in front. A leading `-` gives a non-positive value; any other start gives a non-negative one. |
| `Numeric.ParseUnsignedSyntax` | app.py:56 | `to_numeric` accepts unsigned text exactly when it is digits with at most one point and at least one digit, so `"1.2.3"` and `"."` are rejected. |
| `Numeric.ParseDecimalSyntax` | app.py:56 | Text parses exactly when it is an optional `+` or `-` followed by such an unsigned decimal, so a sign after the digits (`"5-"`) is rejected. |
| `Numeric.ParseUnsignedPoint` | app.py:56 | Digits, a point and digits, with at least one digit, parse to the whole part plus the fraction over the matching power of ten. |
| `Numeric.ParseUnsignedWhole` | app.py:56 | A run of digits parses to the number it denotes. |
| `Numeric.ParseDecimalSign` | app.py:56 | Before an unsigned decimal, a `+` changes nothing and a `-` negates the value; an unparsable rest stays unparsable. |
| `Numeric.ParseDecimalPoint` | app.py:56 | Any sign, digits, a point and digits parse to the value they denote, negated after `-`, as in `"+12.5"` giving 12.5. |
| `Numeric.ParseDecimalWhole` | app.py:56 | Any sign followed by digits parses to the number they denote, negated after `-`. |
| `Numeric.ParseTwoDecimals` | app.py:56 | An unsigned amount written with two decimals parses back to that amount. |
| `Numeric.StripTrailingPercent` | app.py:56 | The one percent sign after a change is dropped and nothing else changes. |
| `Numeric.ParseHundredths` | app.py:56 | Writing an amount with two decimals and parsing the text back gives the same amount, for every integer number of hundredths. |
| `Numeric.Coerce` | app.py:54-59 | A numeric cell keeps its value and a missing cell is undefined, in both dtype branches. A text cell has a value exactly when its text, with percent signs removed, is an optional sign followed by digits with at most one point and at least one digit. |
| `Numeric.CoerceHundredths` | app.py:54-59 | `"12.50%"`, `"-3.10%"` and the like coerce to the number written. This equals the coercion of the numeric cell holding that number. |
| `Numeric.CoerceSignedHundredths` | app.py:56 | An explicit `+` before a non-negative change, as in `"+12.50%"`, coerces to the same number. |
| `Numeric.CoerceIgnoresPercentSigns` | app.py:56 | A `%` anywhere in the text, not only at the end, does not change the coerced value. |
| `Numeric.CoerceWrittenChange` | app.py:54-59 | A change written as an optional sign, digits, a point, digits and `%` coerces to the number it denotes, for every such text. |
| `Analyzer.Insert` | app.py:61-62 | Inserting a mover into a ranked sequence gives a ranked sequence holding exactly the old movers plus the new one. |
| `Analyzer.Rank` | app.py:61-62 | The stable sort used by `nlargest` and `nsmallest` (`keep='first'`). It orders by change, ties by earlier row, and returns a permutation of its input. |
| `Analyzer.Candidates` | app.py:55-62 | The candidates are exactly the rows whose change coerces to a number, each projected to (row, symbol, change). They are in row order, and there are as many as the reference count `DefinedCount`. |
| `Analyzer.Coerced` | app.py:55-59 | The coerced change column has one entry per row, each the coercion of that row's change cell. |
| `Analyzer.Top` | app.py:61-62 | The top `n` has `min(n, candidates)` entries, all candidates, in ranking order. Every candidate left out ranks behind every one kept. |
| `Analyzer.TopSelects` | app.py:61-62 | Ranking the candidates and keeping the first `n` satisfies the selection specification `Selects`. |
| `Analyzer.GetTopMovers` | app.py:48-64 | A missing change column or symbol column is a `MissingColumn` error, the change column being checked first. Otherwise the gainers (descending) and decliners (ascending) each have `min(n, defined changes)` rows. Ties keep the earlier row first. Each row is a defined row projected to (symbol, coerced change). The symbol is read from the coerced copy, so it is the coerced change when both labels name the same column. No defined row left out outranks one kept. |
| `Analyzer.SymbolCells` | app.py:61-62 | The symbol projected for row `i` is that row's symbol cell when the two labels name different columns, and its coerced change as a cell when they name the same one. |
| `Analyzer.SharedColumnSymbols` | app.py:55-62 | With one label for both symbol and change, every gainer's and decliner's symbol is its change as a number. |
| `Analyzer.UndefinedChangeExcluded` | app.py:61-62 | A row whose change does not coerce is neither a gainer nor a decliner, for every `n`. |
| `Analyzer.UndefinedRows` | app.py:61-62 | The rows with an undefined change, each once, in increasing row order. Every row with an undefined change is among them, and with the defined ones they account for every row. |
| `Analyzer.RankedCandidates` | app.py:61-62 | Ranking keeps every candidate and invents none. |
| `Analyzer.DefinedRowsRanked` | app.py:61-62 | Every row with a defined change has a place in the ranking. |
| `Analyzer.RankedRowsDistinct` | app.py:61-62 | No row comes twice in a ranking of projected rows. |
| `Analyzer.RowOrderAsWritten` | app.py:61-62 | pandas lays out every row exactly once. First come the rows of the corrected ranking `Rank` of the defined changes, then the NaN rows from `UndefinedRows`, in row order. |
| `Analyzer.TopRowsAsWritten` | app.py:61-62 | As written, the first `min(n, rows)` rows of that order are returned. Its first `min(n, defined)` entries are the rows of the corrected top `n` (`Top`). The rest are the first NaN rows in row order. The row at position `k` has a defined change exactly when `k` is below the defined count. |
| `Analyzer.UndefinedRowsPadAsWritten` | app.py:61-62 | As written, when `n` exceeds the number of defined changes and some change is undefined, the ranking contains a row with an undefined change. |
| `Analyzer.AsWrittenExtendsCorrected` | app.py:48-64 | The rows pandas returns for gainers and for decliners begin with exactly the rows of the corrected gainers and decliners. Whatever follows them is padding. |
| `Analyzer.Lookup` | app.py:69 | `[tables[key] for key in table_keys]` succeeds exactly when every key is present and gives the named tables in key order. Otherwise it is a `MissingKey` error naming an absent key. |
| `Analyzer.AllRows` | app.py:69 | Stacking tables as they are gives as many rows as the reference sum `RowCount`. |
| `Analyzer.AddNew` | app.py:69 | Extending a label list with another keeps the list as a prefix. The labels of the result are exactly those of either list. |
| `Analyzer.AddNewOrder` | app.py:69 | The labels appended are new and come from the second list. They are appended in the order of their first occurrence there. A list without duplicates stays without duplicates. |
| `Analyzer.UnionLabels` | app.py:69 | The united labels are exactly the labels of any of the tables. |
| `Analyzer.FirstTable` | app.py:69 | The first table carrying a label, and no earlier table carries it. |
| `Analyzer.UnionLabelsOrder` | app.py:69 | The united labels hold no duplicate. They are in order of first appearance, table after table and, within a table, column after column. |
| `Analyzer.Realign` | app.py:69 | A row laid out under new labels holds the table's cell under each label the table has, and `Missing` under the others. |
| `Analyzer.StackedRows` | app.py:69 | Realigned stacking gives `RowCount` rows, each as wide as the united labels. |
| `Analyzer.Concat` | app.py:69 | Nothing to stack is a `NothingToCombine` error. Tables with the same labels are stacked unchanged, table after table. Otherwise the labels are united. The result always has the summed row count. |
| `Analyzer.StackedRowAt` | app.py:69 | Row `i` of table `t` lands at row `RowCount(ds[..t]) + i` of the realigned stack. |
| `Analyzer.AllRowsAt` | app.py:69 | Row `i` of table `t` lands at row `RowCount(ds[..t]) + i` of the plain stack. |
| `Analyzer.ConcatPlacesCells` | app.py:69 | Every cell of every source row appears under its label in its row of the result. Labels the source table lacks hold `Missing`. |
| `Analyzer.CombineTables` | app.py:66-69 | Combining fails exactly when no key is given or a key is absent. On success the result is well formed and holds the summed row count. When the named tables share their labels, the rows are those tables' rows in key order. |
| `Analyzer.CombineTwoTables` | app.py:66-69 | Combining two present tables always succeeds and holds all rows of both. When the two share their labels, the first table's rows come first, followed by the second's. |
| `Analyzer.AllRowsOfTwo` | app.py:69 | Two stacked tables give the first one's rows followed by the second one's. |
| `Scraper.FetchTables` | app.py:24-38 | Fewer than five tables, or an unparsable table at position 0, 2 or 4, gives `None` and never a partial set. Otherwise the keys are exactly "Table 1", "Table 3" and "Table 5". "Table 1" is position 0 uncleaned. The other two are positions 2 and 4, cleaned. |
| `Scraper.FetchIgnoresOtherPositions` | app.py:26-34 | Tables at positions 1, 3 and beyond 4 do not affect the result. |
| `Scraper.FetchedQuotesAreClean` | app.py:32-33 | The two quote tables are well formed, hold no "Unnamed" column and keep every parsed row. |
| `Dashboard.CombineFetchedQuotes` | app.py:176 | The summary's `combine_tables(tables)` with its default keys always finds both fetched quote tables, and the combination holds all their rows. When the two cleaned tables share their labels, as they do when they differ only in "Unnamed" columns, the ordinary share rows come before the preference share rows. |
| `Scenarios.QuotesChanges` | app.py:54-59 | The changes "+5.20%", "-3.10%" and "0.00%" coerce to 5.2, -3.1 and 0.0. |
| `Scenarios.ThreeQuotesTopTwo` | app.py:61-62 | Ranking (ABC +5.20%, XYZ -3.10%, QRS 0.00%) with n = 2 gives gainers ABC 5.2 and QRS 0.0, and decliners XYZ -3.1 and QRS 0.0. The flat quote appears in both. |
| `Scenarios.NotApplicableIsUndefined` | app.py:56 | "n/a" coerces to nothing, without an error. |
| `Scenarios.PlusTwelveAndAHalf` | app.py:56 | `"+12.5%"` coerces to 12.5. |
| `Scenarios.MalformedChanges` | app.py:56 | `"1.2.3%"` and `"5-%"` coerce to nothing. |

## Findings

| source | as written | input that shows it | evidently intended | confidence | as-written member | corrected member |
|---|---|---|---|---|---|---|
| app.py:61-62 | `nlargest(n, col)` and `nsmallest(n, col)` fill a ranking that is short of defined changes with the rows whose change is NaN, taken in row order. The panel then shows "nan%" movers. | changes `["1.00%", "n/a"]` with `n = 2`: both rows are returned as gainers | the panel that shows the result counts the returned rows as movers (`Top {len(df)} Gainers`, app.py:153) and formats each change as a number (`{change:.2f}%`, app.py:160), so a ranking holds only rows with a defined change, `min(n, defined)` of them | medium, not executed; rests on pandas' `nlargest`/`nsmallest` appending NaN rows up to `n` | `Analyzer.UndefinedRowsPadAsWritten` | `Analyzer.GetTopMovers` |

## Left out

- The HTTP request, `raise_for_status` and the HTML parsing (`BeautifulSoup`, `pd.read_html`) are not modelled. The page is given as its tables in document order, each already parsed, or `None` where parsing raised.
- The Streamlit interface is not modelled: page layout, controls, tabs, session state, `on_top_n_change` and the `+x.xx%` display formatting. Neither are the `st.error` messages, the CSV download and the refresh timestamp.
- Number parsing covers an optional sign, digits and an optional decimal point, over exact reals. Exponents, `inf`/`nan` words, surrounding whitespace and IEEE rounding are not modelled. A numeric cell is taken to read back as itself through `str()`.
- Frames.Clean: does not model pandas refusing the `.str` accessor on a column index with no string label (for example, all-integer labels), where `fetch_tables` would end in its exception handler.
- Frames.IndexOf: duplicate column labels are resolved to the first occurrence. pandas would return a sub-table for `df[label]` and refuse to realign duplicates in `pd.concat`.
- Analyzer.GetTopMovers: does not model a negative `n`, which the interface's 1 to 20 bound never passes.
- Analyzer.GetTopMovers: does not model pandas refusing `nlargest` on an empty change column left with text dtype.
- Analyzer.GetTopMovers: ties are always ordered earlier row first. pandas reaches this through a stable sort, except on the path where `n` is at least the row count: there it uses `sort_values`, whose default algorithm is not guaranteed stable for tables of more than 16 rows.
- Analyzer.GetTopMovers: the result keeps the original row position, as pandas keeps the index label. Column dtypes and the column names of the projected result are not modelled.
