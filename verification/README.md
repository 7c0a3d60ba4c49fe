# Population statistics pipeline, modelled in Dafny

The modelled repository is a batch pipeline over Spanish population statistics (INE). It has five report scripts:
- `R1.py`: the variation table per province.
- `R2.py`: the table of 24 sums per autonomous community.
- `R3.py`: the top-ten chart of men and women in 2017.
- `R4.py`: the variation table per community and sex.
- `R5.py`: the top-ten chart of totals in chronological order.

It also has the helper module `funciones.py`, which holds the European number formatter and the two readers of HTML lookup tables.

This project models those scripts as pure functions over the cell texts of the CSV and HTML rows. It proves what each report computes from its input rows.

| file | module | what it models |
|---|---|---|
| wrappers.dfy | Wrappers | `Option` |
| text.dfy | Text | Python `str` operations: `strip`, `in`, `replace`, `split(" ", 1)`, `zfill`, `lstrip("0")`, `isdigit` |
| numeric.dfy | Numeric | `float()` over decimal literals (sign, digits, fraction, exponent) |
| dict.dfy | Dict | an insertion-ordered `dict`, and the loop `for x in items: d[k] = v` |
| order.dfy | Order | Python string order and `sorted` on strings |
| vec.dfy | Vec | numpy vectors: zeros, elementwise `+`, sum, reversal |
| cleaning.dfy | Cleaning | the three cell-cleaning rules (`limpar_valor`, the province totals rule, the community cells rule) |
| format.dfy | Format | `formatar_numero` |
| lookup.dfy | Lookup | `ler_comunidades` and `ler_relacao_prov_cca` over the cells' texts |
| rows.dfy | Rows | skipping header, noise and national-total rows; reading the code and name from the first cell; R4's three-step code resolution |
| fold.dfy | Fold | the accumulation loop shared by R2–R5, and numpy's `+=` shape rule |
| variation.dfy | Variation | absolute and relative year-over-year changes |
| ranking.dfy | Ranking | the mean of the Total block, the stable descending sort, the first ten |
| aggregate.dfy | Aggregate | the 24-column community accumulation of R2, R3 and R5 |
| province.dfy | ProvinceReport | R1 |
| table.dfy | CommunityTable | R2 |
| chart.dfy | CommunityChart | R3 |
| changes.dfy | CommunityVariation | R4 |
| trend.dfy | CommunityTrend | R5 |

Modelling choices:
- Numbers are exact `real`s.
- A CSV row or an HTML table row is the `seq<string>` of its cells' texts.
- The year lists `anos` and `anos_variacion` are parameters (`years`, `wanted`), because `funciones.py` as given does not define them.
- A run that stops with an uncaught exception is `None`. This is the `KeyError` in R3 and R5 for a community missing from the communities table.
- A row that a caught `ValueError` skips is a `Skip` step.
- The communities and relation tables the reports take have no repeated key (`Dict.Valid`), as every Python dict. `Lookup.ReadValid` proves this for the tables the readers build.

## Model

| member | source | states |
|---|---|---|
| Cleaning.CleanValue | ProjetoFinal/probacion/R4.py:9-11 | a cell that is empty or only whitespace cleans to 0 |
| Cleaning.CleanScientific | ProjetoFinal/probacion/R4.py:12-14 | a cell in scientific notation is read as a plain literal, so its `.` is the decimal point and not a thousands separator |
| Cleaning.CleanUnreadable | ProjetoFinal/probacion/R4.py:12-16 | an unreadable cell holding `e`/`E` gives 0 instead of raising |
| Format.CleanExample | ProjetoFinal/probacion/R4.py:17-20 | `limpar_valor("1.234,56")` is 1234.56 |
| Format.EuropeanRead | ProjetoFinal/probacion/R4.py:17-22 | the dots-then-comma rule reads every European rendering back as the signed number of hundredths it shows |
| Cleaning.CleanAll | ProjetoFinal/probacion/R1.py:37-50 | a block of cells parses only if every cell does, and then to the cells' values in order |
| Cleaning.TotalAgreesWithCell | ProjetoFinal/probacion/R1.py:40-41 | the province rule (strip, then drop dots) and the community rule (drop dots, then test for blank after strip) agree, except on a cell that becomes whitespace only once its dots are dropped |
| Cleaning.WhitespaceCell | ProjetoFinal/probacion/R5.py:34-36 | a whitespace-only cell reads 0 under the strip-then-blank rule but fails under R5's exact-empty rule, which drops the row |
| Cleaning.CommaFails | ProjetoFinal/probacion/R1.py:40-42 | a cell with a decimal comma never parses under the dot-dropping rules |
| Format.GroupedTotal | ProjetoFinal/probacion/R1.py:40-42 | an integer written with `.` thousands separators reads back as that integer |
| Numeric.ScanRender | ProjetoFinal/probacion/R4.py:14 | the literal scanner inverts the rendering of every well-formed decimal literal |
| Numeric.ParseRendered | ProjetoFinal/probacion/R4.py:14 | the decimal parser behind `float()` reads every rendered literal as its value |
| Format.GroupedLayout | ProjetoFinal/probacion/funciones.py:13 | the integer part has a `.` exactly at every fourth place from the right and digits elsewhere |
| Format.EuropeanizeSwaps | ProjetoFinal/probacion/funciones.py:15 | on text without `X`, the three replacements exchange `,` and `.`, keep every other character, and undo themselves when applied twice |
| Format.FormatNumberLayout | ProjetoFinal/probacion/funciones.py:10-15 | the result is the sign, the `.`-grouped whole part, `,` and exactly two decimals of the value rounded to hundredths |
| Format.Example | ProjetoFinal/probacion/funciones.py:8 | 1234.56 is written "1.234,56" |
| Format.RoundTrip | ProjetoFinal/probacion/funciones.py:13-15 | for a value with at most two decimals, `limpar_valor(formatar_numero(v)) == v` |
| Format.FormatOperand | ProjetoFinal/probacion/funciones.py:10-17 | text that `float()` rejects is returned as it is instead of raising; text it accepts is formatted as its value |
| Lookup.ReadKeys | ProjetoFinal/probacion/funciones.py:33-41 | a code is in the table exactly when some row long enough for both cells has that numeral in its key cell (cell 0 of the communities table, cell 2 of the relation) |
| Lookup.ReadKeysNumeric | ProjetoFinal/probacion/funciones.py:65-68 | every key is a non-empty all-digit string, so header rows never enter |
| Lookup.ReadLast | ProjetoFinal/probacion/funciones.py:56-68 | a code maps to the value of the last accepted row with that code |
| Lookup.ReadOrder | ProjetoFinal/probacion/funciones.py:24-42 | the keys keep the order in which each code was first read |
| Lookup.ReadValid | ProjetoFinal/probacion/funciones.py:41 | no code is stored twice |
| Dict.PutGet | ProjetoFinal/probacion/R1.py:45-48 | after `d[k] = v`, `k` reads `v` and every other key reads what it read before |
| Dict.PutKeys | ProjetoFinal/probacion/R1.py:45 | assigning an existing key keeps the key order; assigning a new key appends it |
| Dict.GatherKeys | ProjetoFinal/probacion/funciones.py:34-41 | the dict a loop of assignments builds holds exactly the keys some item assigns |
| Rows.DataRows | ProjetoFinal/probacion/R1.py:19-20 | skipping the header rows leaves the suffix after them, or nothing when the file is shorter |
| Rows.Slice | ProjetoFinal/probacion/R4.py:65-66 | a Python slice is clipped to the list and never fails |
| Rows.TotalAfterStrip | ProjetoFinal/probacion/R4.py:55-56 | "Total Nacional" occurs in the stripped cell exactly when it occurs in the raw cell |
| Rows.FirstTokenOf | ProjetoFinal/probacion/R2.py:44-45 | the text before the first space of "code name" is the code |
| Rows.EntityOfLabel | ProjetoFinal/probacion/R1.py:33-35 | a cell "code name" gives back the code and the name |
| Rows.EntityOfBare | ProjetoFinal/probacion/R1.py:35 | a cell without a space gives the stripped cell as both code and name |
| Rows.Resolve | ProjetoFinal/probacion/R4.py:72-79 | a code resolves exactly when its zero-padded, raw or zero-stripped form is a key, and then to a value stored under one of them |
| Rows.ResolvePadded | ProjetoFinal/probacion/R4.py:63 | a one-digit code finds the two-digit key "0d" first |
| Rows.ResolveWide | ProjetoFinal/probacion/R4.py:72-75 | a code of two or more characters that is a key resolves to its own value |
| Fold.Init | ProjetoFinal/probacion/R2.py:22-23 | every community of the table, in table order, starts with a zero vector |
| Fold.Apply | ProjetoFinal/probacion/R3.py:37 | one `+=` aborts exactly when the row names a community the accumulator lacks and aborting is the rule; otherwise the keys and widths are kept |
| Fold.RunAborts | ProjetoFinal/probacion/R3.py:32-39 | the loop aborts exactly when aborting is the rule and some readable row names a community missing from the accumulator |
| Fold.RunSums | ProjetoFinal/probacion/R2.py:61-62 | after the loop, each community holds its start plus the elementwise sum of the rows added to it |
| Fold.RunHit | ProjetoFinal/probacion/R4.py:84 | a community is marked after the loop exactly when it was marked before or some row was added to it |
| Fold.UntouchedZero | ProjetoFinal/probacion/R4.py:36-42 | rows that never add to a community contribute the zero vector to it |
| Fold.ExactWidthOnly | ProjetoFinal/probacion/R2.py:62-64 | under the intended rule, a row is added exactly when it has one value per slot, and then as it is |
| Fold.BroadcastQuirk | ProjetoFinal/probacion/R3.py:37 | as written, a row with a single value adds that value to every slot of its community, where the intended rule leaves the accumulator unchanged |
| Aggregate.CommunityStep | ProjetoFinal/probacion/R2.py:33-64 | a row is added exactly when it is not noise or the national total, its code is in the relation, and all its cells 1 to 24 are readable; it is added to the mapped community with the cleaned values |
| Aggregate.RowCounts | ProjetoFinal/probacion/R2.py:53-62 | a row reaches a community's sums exactly when it is added to it and has all 24 cells |
| Aggregate.AccumulateSums | ProjetoFinal/probacion/R2.py:19-64 | a community's final vector is the elementwise sum of the rows mapped to it, whatever the accumulator held for other communities |
| Aggregate.InitGet | ProjetoFinal/probacion/R3.py:20 | every community of the table starts at zero and unmarked |
| Aggregate.AccumulateAborts | ProjetoFinal/probacion/R3.py:28-39 | the R3/R5 run fails exactly when a readable row maps to a community missing from the communities table |
| Aggregate.Ranked | ProjetoFinal/probacion/R3.py:46-51 | one entry per community in dict order, keyed by the mean of its Total block |
| Aggregate.TopTen | ProjetoFinal/probacion/R3.py:46-54 | the top ten has min(10, n) entries, in non-increasing order of key; each is a distinct community keyed by the mean of its eight totals |
| Aggregate.TopTenKeepsLarger | ProjetoFinal/probacion/R3.py:46-54 | a community whose mean total is above the last kept key is among the top ten |
| Ranking.Mean8 | ProjetoFinal/probacion/R3.py:50 | eight times the mean is the sum of indices 0 to 7 |
| Ranking.SortDesc | ProjetoFinal/probacion/R3.py:54 | the sort is a permutation in non-increasing order of key |
| Ranking.SortStable | ProjetoFinal/probacion/R3.py:54 | entries with equal keys keep their relative order |
| Ranking.Top | ProjetoFinal/probacion/R5.py:51 | the first n of the sort: min(n, length) entries, in order, a sub-multiset of the input |
| Ranking.TopDistinct | ProjetoFinal/probacion/R5.py:51 | when the input lists each code once, so does the top |
| Ranking.TopKeepsLarger | ProjetoFinal/probacion/R3.py:54 | every entry with a key above the last kept key is kept |
| Order.Total | ProjetoFinal/probacion/R2.py:107 | any two strings are comparable |
| Order.Antisymmetric | ProjetoFinal/probacion/R2.py:107 | strings below each other are equal |
| Order.Transitive | ProjetoFinal/probacion/R2.py:107 | the string order is transitive |
| Order.Sort | ProjetoFinal/probacion/R2.py:107 | `sorted` is a permutation in ascending order |
| Order.SortSorted | ProjetoFinal/probacion/R2.py:107 | sorting an ordered list changes nothing |
| Order.ZeroZeroBelow | ProjetoFinal/probacion/R1.py:94 | "00" sorts before every numeral of two or more digits |
| Variation.Change | ProjetoFinal/probacion/R1.py:113-119 | the absolute change takes the earlier value to the later one; the relative change is the absolute one over the earlier value, in percent, or 0 when the earlier value is 0 |
| Variation.YearChange | ProjetoFinal/probacion/R1.py:105-110 | a year has a change exactly when the year after its first index is still in the series, and then the change leads from that later entry to the year's entry |
| Variation.Telescope | ProjetoFinal/probacion/R1.py:113 | the absolute changes of the first m years add up to the difference between the newest value and the value m years back |
| Variation.EndsOfSeries | ProjetoFinal/probacion/R1.py:108 | the newest year always has a change and the oldest never has one |
| Variation.FirstIndexDistinct | ProjetoFinal/probacion/R4.py:102 | `anos.index` of a year in a list of distinct years is its position |
| Variation.ProvinceChanges | ProjetoFinal/probacion/R1.py:103-124 | seven columns, one per year from 2017 down to 2011, each the year's change or "-" |
| Variation.ProvinceChangesFull | ProjetoFinal/probacion/R1.py:103-119 | with eight totals for 2017 down to 2010, every column is the change between consecutive totals |
| Variation.CommunityChanges | ProjetoFinal/probacion/R4.py:101-116 | one change per requested year, in that order, with 0 and 0 when the previous year is out of range |
| ProvinceReport.Totals | ProjetoFinal/probacion/R1.py:37-44 | the totals exist exactly when the row has cells 1 to 8 and each cleans, and they are those values |
| ProvinceReport.CollectKeys | ProjetoFinal/probacion/R1.py:19-48 | a code is in the province dict exactly when some data row past the two headers is not noise, has eight readable totals and reads as that code |
| ProvinceReport.CollectLast | ProjetoFinal/probacion/R1.py:45-48 | a code holds the province of the last data row that reads as it |
| ProvinceReport.CollectTotals | ProjetoFinal/probacion/R1.py:44 | every stored province has exactly eight totals |
| ProvinceReport.NationalEntry | ProjetoFinal/probacion/R1.py:29-31 | a row mentioning "Total Nacional" is stored as code "00", name "Total Nacional" |
| ProvinceReport.LabelReadsBack | ProjetoFinal/probacion/R1.py:99 | the label "code name" of a province reads back as its code and name |
| ProvinceReport.Report | ProjetoFinal/probacion/R1.py:94-96 | one line per stored province, codes in `sorted` order, each with seven columns |
| ProvinceReport.ReportSorted | ProjetoFinal/probacion/R1.py:94 | the lines are in ascending order of code |
| ProvinceReport.ReportLine | ProjetoFinal/probacion/R1.py:95-124 | a line shows its province's label and, per year from 2017 to 2011, the change of its eight totals or "-" |
| ProvinceReport.NationalFirst | ProjetoFinal/probacion/R1.py:94-99 | when every other code is a numeral of two or more digits, the national total is the first line |
| CommunityTable.Sums | ProjetoFinal/probacion/R2.py:40-64 | the R2 loop never aborts and keeps one 24-wide vector per community |
| CommunityTable.Table | ProjetoFinal/probacion/R2.py:107-111 | the lines' codes are the sorted communities; each line has the community's name and 24 values |
| CommunityTable.TableSorted | ProjetoFinal/probacion/R2.py:107 | the lines are in ascending order of code |
| CommunityTable.TableCodes | ProjetoFinal/probacion/R2.py:107-109 | every community of the table is listed exactly once, including the all-zero ones |
| CommunityTable.TableValues | ProjetoFinal/probacion/R2.py:111-115 | a line's values are the elementwise sums of the rows mapped to its community |
| CommunityChart.Chart | ProjetoFinal/probacion/R3.py:54-70 | the chart fails exactly when the accumulation fails, and otherwise has min(10, n) bars |
| CommunityChart.ChartBar | ProjetoFinal/probacion/R3.py:60-70 | each bar is a top-ten community's name with the sums of its rows at indices 8 (men, 2017) and 16 (women, 2017) |
| CommunityTrend.TrendOf | ProjetoFinal/probacion/R5.py:59-62 | a line is the community's name and its eight totals, oldest year first |
| CommunityTrend.TrendUndone | ProjetoFinal/probacion/R5.py:62 | reversing a line gives back the Total block |
| CommunityTrend.Trends | ProjetoFinal/probacion/R5.py:17-58 | the chart fails exactly when the exact-empty accumulation fails, and otherwise has min(10, n) lines |
| CommunityTrend.TrendLine | ProjetoFinal/probacion/R5.py:57-62 | each line is a top-ten community's name and the Total sums of its rows, reversed |
| Vec.ReverseTwice | ProjetoFinal/probacion/R5.py:62 | reversing twice is the identity |
| CommunityVariation.CleanEach | ProjetoFinal/probacion/R4.py:65-66 | every cell is cleaned with `limpar_valor`, in order |
| CommunityVariation.HalvesOf | ProjetoFinal/probacion/R4.py:65-69 | the men's and women's slices give eight values each exactly when the row has 25 cells, and then the cleaned cells 9 to 24 |
| CommunityVariation.VariationStep | ProjetoFinal/probacion/R4.py:51-79 | a row is added exactly when it is not noise or the national total, has 25 cells, and its code resolves; then to the resolved community, with cells 9 to 24 cleaned |
| CommunityVariation.Marked | ProjetoFinal/probacion/R4.py:171 | the listed codes are exactly the marked communities |
| CommunityVariation.ListedWhenTouched | ProjetoFinal/probacion/R4.py:81-84 | a community is listed exactly when some data row was added to it |
| CommunityVariation.SumsOfRows | ProjetoFinal/probacion/R4.py:81-83 | a community's 16 sums are the elementwise sums of its rows' men and women cells |
| CommunityVariation.UnlistedStaysZero | ProjetoFinal/probacion/R4.py:35-42 | a community that is not listed keeps its zero start |
| CommunityVariation.Report | ProjetoFinal/probacion/R4.py:171-173 | the lines' codes are the sorted marked communities, each exactly once |
| CommunityVariation.ReportSorted | ProjetoFinal/probacion/R4.py:171 | the lines are in ascending order of code |
| CommunityVariation.ReportLine | ProjetoFinal/probacion/R4.py:93-116 | a line's changes are those of the men's and the women's sums of the rows mapped to its community |
| Text.ContainsStripped | ProjetoFinal/probacion/R4.py:55-56 | a word with no whitespace at its ends occurs in the stripped text exactly when it occurs in the raw text |
| Text.SplitOnceAt | ProjetoFinal/probacion/R1.py:33 | `split(" ", 1)` of "head sep tail" is head and tail when head has no separator |
| Text.ZFill | ProjetoFinal/probacion/R4.py:63 | `zfill(2)` pads a shorter numeral with leading zeros and keeps longer codes |
| Text.StripZeros | ProjetoFinal/probacion/R4.py:76 | `lstrip("0")` drops exactly the leading zeros |
| Text.Replace | ProjetoFinal/probacion/R4.py:18 | `replace` changes every occurrence of one character and nothing else |
| Text.Remove | ProjetoFinal/probacion/R4.py:17 | dropping a character leaves no occurrence of it |

## Left out

- File I/O: opening files, the utf-8 to latin-1 fallback, the `FileNotFoundError` messages and early returns (`funciones.py:26-31`, `49-54`, and every script). A report's rows are a parameter.
- HTML parsing with BeautifulSoup and CSV tokenising with `csv.reader`: both are foreign libraries. Rows arrive as their cells' texts, already stripped as `get_text(strip=True)` returns them.
- HTML report assembly (`R1.py:58-133`, `R2.py:70-132`, `R4.py:118-200`). This is templating around the lines modelled here. It includes `formatar_numero` applied to each value, which `Format` models.
- Chart drawing with matplotlib (`R3.py:72-92`, `R5.py:53-78`). The models stop at the bars and lines passed to it.
- The module constants `anos`, `anos_variacion` and `file_*`: `funciones.py` as given does not define them. The years are parameters.
- `float()` beyond decimal literals: surrounding whitespace is stripped as `float()` does, but `inf`, `nan`, underscores and non-ASCII digits are unreadable.
- `isdigit()` for non-ASCII digits: only `0`–`9` count.
- Cleaning.CleanValue: values are exact reals, not IEEE doubles, so rounding in the parse is not modelled.
- Format.FormatNumberLayout: `"{:,.2f}"` is modelled as rounding the exact real half up to hundredths. Binary rounding of doubles, including round-half-even on exact ties, is not modelled.
- Format.FormatOperand: only numbers and text are modelled as operands; other Python objects passed to `str(numero)` are not.
- ProvinceReport.Report: requires every year from 2017 to 2011 in `years`. Otherwise the script stops with ValueError from `anos.index`, which the model does not represent.
- CommunityVariation.Report: requires every requested year in `years`, for the same reason.
- Variation.ProvinceChangesFull: assumes the eight totals are for the distinct years 2017 down to 2010. That ordering is the layout of the statistics, not something the code checks.

## Findings

| source | as written | input that shows it | evidently intended | confidence | as-written member | corrected member |
|---|---|---|---|---|---|---|
| ProjetoFinal/probacion/R3.py:37 | numpy's `+=` broadcasts a one-value array over all 24 slots, so a row with a code cell and one number adds that number to every year, sex and total column of its community (also `R2.py:62`, `R5.py:37`) | the CSV row `["28 Madrid", "5"]` after the headers, with 28 mapped to a community | a row with the wrong number of values is skipped, as the `except ValueError` around the add does for every other length | not executed | Fold.BroadcastQuirk | Fold.ExactWidthOnly |

The report models (`Aggregate.Accumulate` and everything built on it) use the corrected shape rule `ExactWidth`.
