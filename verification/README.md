# Football pattern analysis — a Dafny model

This project models the core of `partidas_padroes.py`. The program reads a log of football matches. Each row holds a match label and a result cell with the full-time score and the first-half score. Given an anchor pair (a first-half score and a full-time score), it does four things:

- It finds the matches with exactly that pair.
- It tallies the windows of `n` consecutive labels over those matches.
- It keeps the windows that repeat at least a threshold number of times.
- For every kept window it builds a table row. The row counts, at each window position, the first match where both teams scored ("AM", *ambas marcam*) and the first match where a side scored nothing ("AN"). At the AM match it also records one goal band: Over 1.5, Over 2.5 or Over 3.5. The rows are then sorted by their totals, highest first.

Modules, leaf first:

- `Wrappers`: `Option` (Python's `None`, pandas' NaN) and `Result` (a raised exception made a value).
- `Text`: Python's `str.split` with a non-empty separator, and its `join`. Also the decimal digits that `int()` reads and `str()` writes.
- `Extraction`: `extrair_resultados`, then the row reversal and the cleaning steps of `tratar_arquivo_excel`.
- `Scanner`: the anchor filter, the window tally of `analisar_partidas`, the threshold filter of `criar_novo_dicionario`, and their composition. A Python dict is a map plus the order its keys were inserted in, so the tally and the retained dict also carry their key order.
- `Outcomes`: the per-instance classifier (the loop body at lines 105-141) and the fold over all instances of a row.
- `Report`: the row layout and totals, the recomputed totals, the descending stable sort, and the whole table from the records to the sorted rows. It also models the order as written, which compares text cells.

AN follows the code at line 133: either score below 1, that is, some side scored nothing. It does not mean that neither team scored. Python's comparisons with 1.5, 2.5 and 3.5 are written exactly, with both sides doubled (`2 * total > 3`). Integers are unbounded, as in Python.

## Model

| member | source | states |
|---|---|---|
| Text.SplitFirstIsPrefix | partidas_padroes.py:7-9 | the first part of `s.split(sep)` is a prefix of `s`, and the whole of `s` when there is no other part |
| Text.SplitFirstPiece | partidas_padroes.py:7-9 | the first part runs from the start of the text up to the first occurrence of the separator (no occurrence starts inside it), or to the end when the separator does not occur |
| Text.SplitAfterFirst | partidas_padroes.py:7-8 | when there are several parts, splitting the text that follows the first separator gives the remaining parts |
| Text.SplitFirstTwoPieces | partidas_padroes.py:7-9 | when there is a second part, the first part ends where the first separator starts, and the second part runs from just after it up to the next separator or the end |
| Text.JoinSplit | partidas_padroes.py:7 | joining the parts of `s.split(sep)` with `sep` gives back `s`: the split drops nothing but the separators |
| Text.SplitHasSecondPart | partidas_padroes.py:7-8 | the split has a second part (so `resultado_split[1]` exists) exactly when the separator occurs in the text |
| Text.SplitPartsSeparatorFree | partidas_padroes.py:7 | no part of a split contains the separator |
| Text.SplitTwoBlocks | partidas_padroes.py:7 | `a + sep + b` splits into exactly `[a, b]` when `b` has no separator and `a` followed by the start of the separator has none either |
| Text.ShowNat | partidas_padroes.py:168 | `str(n)` is a non-empty string of decimal digits, without a leading zero unless `n` is 0 |
| Text.ParseNat | partidas_padroes.py:114-115 | `int(s)` of a numeral of `k` digits is less than `10 ** k` |
| Text.ParseShowNat | partidas_padroes.py:114-115 | `int(str(n)) == n` for every non-negative `n` |
| Extraction.Extract | partidas_padroes.py:5-12 | the placeholder `"?\n\n?"` gives two missing values; any other text succeeds exactly when it contains a blank line; then the full-time block is the text before the first blank line, and the first-half block is the text after it up to the next blank line or the end; both are blank-line-free, and they appear in the text in that order |
| Extraction.ExtractTwoBlocks | partidas_padroes.py:5-12 | extraction inverts the cell layout: a full-time block, a blank line and a first-half block come back swapped into (first half, full time), unless both are `?` |
| Extraction.ExtractShiftsTrailingNewline | partidas_padroes.py:7-9 | a full-time block ending in a newline loses that newline to the first-half block: `"2x1\n" + "\n\n" + "1x0"` extracts first half `"\n1x0"` |
| Extraction.Reverse | partidas_padroes.py:21-22 | the table comes out in reverse order: position `i` holds input row `len - 1 - i` |
| Extraction.ExtractAll | partidas_padroes.py:23 | the table extracts exactly when every row does, and then row by row, labels kept |
| Extraction.Rename | partidas_padroes.py:26 | the alias `oth` becomes `9x9`, so it is never left in the first-half column, and every other value is unchanged |
| Extraction.Clean | partidas_padroes.py:24-27 | cleaning never adds rows, and every surviving record has both scores, no `.`, no `?` and no `oth` |
| Extraction.CleanMembership | partidas_padroes.py:24-27 | a record survives exactly when it is the normalised form of a row with both scores present, no `.` and no `?` |
| Extraction.CleanAppend | partidas_padroes.py:24-27 | cleaning is an order-preserving filter: it distributes over concatenation |
| Extraction.Prepare | partidas_padroes.py:21-27 | the prepared table exists exactly when every row extracts, is no longer than the input, and holds only usable records |
| Extraction.PrepareAppend | partidas_padroes.py:21-27 | older rows (later in the input) come first after preparation: `prepare(newer + older) == prepare(older) + prepare(newer)` |
| Extraction.PrepareOne | partidas_padroes.py:21-27 | one row alone gives an error, nothing, or its normalised record, according to extraction and the cleaning test |
| Scanner.AnchorIds | partidas_padroes.py:33 | the anchor filter never yields more labels than there are records |
| Scanner.AnchorIdsMembership | partidas_padroes.py:33 | a label is kept exactly when a record with that label has both scores equal to the anchor pair |
| Scanner.AnchorIdsAppend | partidas_padroes.py:33 | the anchor filter keeps table order: it distributes over concatenation |
| Scanner.TallyCountAt | partidas_padroes.py:43-46 | for any window, its count after `j` iterations is the number of the first `j` start positions producing it, and it is absent exactly when that number is zero |
| Scanner.TallyKeyAt | partidas_padroes.py:43-46 | a window is a key after `j` iterations exactly when one of the first `j` start positions produces it |
| Scanner.TallyWindows | partidas_padroes.py:40-46 | every key of the tally is an `n`-label window counted at least once |
| Scanner.TallyWindowsExact | partidas_padroes.py:40-46 | the tally's keys are exactly the windows seen, and each count is the number of start positions producing that window |
| Scanner.TallySum | partidas_padroes.py:40-46 | after `j` iterations the counts add up to `j` |
| Scanner.Analyse | partidas_padroes.py:31-49 | the insufficient-data result comes exactly when fewer than the threshold of records match the anchor; otherwise the tally's keys are exactly the windows over the anchor labels, each counted by its start positions |
| Scanner.AnalyseCountsAllWindows | partidas_padroes.py:41-46 | the counts add up to `L - n + 1` for `L >= n` anchor matches, and the tally is empty when `L < n` |
| Scanner.FirstSeenKeyAt | partidas_padroes.py:43-46 | a window is in the dict's key list after `j` iterations exactly when one of the first `j` start positions produces it |
| Scanner.FirstSeenKeys | partidas_padroes.py:43-46 | the dict's key list holds exactly the keys of the tally |
| Scanner.FirstSeenOnce | partidas_padroes.py:43-46 | no key is listed twice: line 44 updates a present key in place |
| Scanner.FirstSeenOrderAt | partidas_padroes.py:43-46 | a key listed before another has a start position before every start position of the other: keys are listed in the order they were first inserted (line 46) |
| Scanner.Retain | partidas_padroes.py:52-57 | a window is kept exactly when its count reaches the threshold, and its count is unchanged |
| Scanner.RetainSubMap | partidas_padroes.py:52-57 | the retained windows are a subset of the tallied ones, and there are no more of them |
| Scanner.RetainTwice | partidas_padroes.py:52-57 | filtering by `a` and then by `b` is filtering by the larger; filtering twice by the same threshold changes nothing |
| Scanner.RetainOrder | partidas_padroes.py:54-56 | a key is in the retained dict exactly when it is a key of the tally whose count reaches the threshold |
| Scanner.RetainOrderPrecedes | partidas_padroes.py:54-56 | the retained dict keeps the relative order of the keys it keeps |
| Scanner.RetainEmptyIff | partidas_padroes.py:52-57 | no window is retained exactly when every window over the anchor labels starts fewer than threshold-many times |
| Scanner.RetainedWindows | partidas_padroes.py:80-85 | the composed scan fails with too few anchor matches exactly when the anchor filter yields fewer than the threshold; otherwise it fails with no repeated window exactly when every window starts fewer than threshold-many times; on success its counts are the threshold filter of the tally, non-empty, each window of length `n` and counted at least the threshold |
| Scanner.RetainedOrder | partidas_padroes.py:43-56 | the retained dict lists exactly its retained windows, each once, and a window listed before another was first seen, over the anchor matches, before it |
| Scanner.RetainedNeedsEnoughWindows | partidas_padroes.py:36-57 | a window can only be retained if there are at least threshold-many start positions |
| Outcomes.ParseScore | partidas_padroes.py:113-115 | text without an `x` is not a score |
| Outcomes.ParseShowScore | partidas_padroes.py:113-115 | reading back a written score `"HxA"` gives the score |
| Outcomes.Visit | partidas_padroes.py:117-135 | AM fires at a match exactly when it has not fired yet and both teams scored; AN fires exactly when it has not fired yet and a side scored nothing; with consistent flags, a total of 2 fires Over 1.5, 3 Over 2.5 and 4 or more Over 3.5, only together with AM |
| Outcomes.VisitRaisesLoweredFlags | partidas_padroes.py:117-135 | a match only raises flags that were still lowered, and the flags stay consistent (a goal band only with AM) |
| Outcomes.Classify | partidas_padroes.py:106-135 | an instance starts with every flag lowered and fires once per match; at its end AM is raised exactly when some match had both teams scoring, AN exactly when some match had a side without a goal, and a goal band only together with AM |
| Outcomes.WalkFiresAm | partidas_padroes.py:117-119 | AM fires at position `i` exactly when `i` is the first match where both teams scored; the AM flag ends raised exactly when some match had both teams scoring |
| Outcomes.WalkFiresAn | partidas_padroes.py:133-135 | AN fires at position `i` exactly when `i` is the first match where a side scored nothing; the AN flag ends raised exactly when some such match exists |
| Outcomes.WalkFiresOver | partidas_padroes.py:121-131 | at every position a goal band fires only where AM fires, and the match total decides which one: 2, 3, or 4 and more |
| Outcomes.ClassifyFirstPosition | partidas_padroes.py:117-135 | at the first match of an instance exactly one of AM and AN fires |
| Outcomes.WalkTicks | partidas_padroes.py:106-141 | each flag is raised by exactly one firing: the flags at the end of a walk are its starting flags plus all per-position firings |
| Outcomes.WalkBandsSplitAm | partidas_padroes.py:117-131 | at every position, and summed over the instance, the three goal bands add up to AM |
| Outcomes.ClassifyBandsExclusive | partidas_padroes.py:106-141 | per instance at most one goal-band flag is raised, and one is raised exactly when AM is |
| Outcomes.ClassifyTicks | partidas_padroes.py:106-141 | the per-position firings of an instance add up to its five final flags |
| Outcomes.Zeros | partidas_padroes.py:94-98 | `[0] * n`: `n` zeroed counters |
| Outcomes.AddMarks | partidas_padroes.py:118-134 | each counter at a position that fired goes up by one, and counters past the instance are unchanged; nothing may fire at a position past the counters, where lines 118-134 raise IndexError |
| Outcomes.InBoundsIff | partidas_padroes.py:112-134 | an instance indexes no counter past the window exactly when its first match with both teams scoring and its first match with a side without a goal, when there are such matches, lie in the first `n` positions |
| Outcomes.InBoundsShort | partidas_padroes.py:112-118 | an instance no longer than the window never indexes past the counters |
| Outcomes.InBoundsLonger | partidas_padroes.py:112-134 | an instance longer than the window can still be in bounds: with `n = 2` the instance 1x1, 0x0, 5x5 fires AM at the first position, AN at the second and nothing at the third; with `n = 1` it overruns |
| Outcomes.ColumnSumsAddMarks | partidas_padroes.py:148-152 | adding an instance's firings to the counters adds its firing counts to the column sums |
| Outcomes.Absorb | partidas_padroes.py:105-141 | folding in one more instance adds to each position's counters what the instance records there (AM and its goal band at its first both-scored match, AN at its first match with a side on zero) and adds its final flags to the totals; it keeps the number of positions and keeps the totals equal to the column sums of the counters |
| Outcomes.Aggregate | partidas_padroes.py:94-152 | all instances folded in order give `n` positions; the counter at position `i` counts the instances whose first both-scored match (AM), of those the ones totalling 2, 3 and 4 or more goals (the bands), and whose first match with a side on zero (AN), lie at `i`; each total counts the instances ending with that flag raised (`total_AM += int(AM_found)`, ...) and equals the sum of its counter list |
| Outcomes.ClassifyMeaning | partidas_padroes.py:106-135 | the walk fires at each position exactly what the first-match description says, and ends with exactly the flags of that description |
| Outcomes.ClassifyFiredAt | partidas_padroes.py:112-135 | at each position the walk fires AM and the band of the total at the first both-scored match, AN at the first match with a side on zero, and nothing else |
| Outcomes.ClassifyRaised | partidas_padroes.py:106-135 | the final flags are AM iff both teams scored somewhere, AN iff a side scored nothing somewhere, and the band of the first both-scored match's total |
| Outcomes.WalkFoundAny | partidas_padroes.py:117-135 | a flag ends up raised exactly when it was raised at the start or fired at some position |
| Outcomes.ExampleRecords | partidas_padroes.py:112-135 | for a score with a side on zero followed by a both-scored score of two goals, AN fires at the first position, AM with Over 1.5 at the second, and the instance ends with AM, AN and Over 1.5 |
| Outcomes.AggregateExample | partidas_padroes.py:94-141 | with a window of 2, such an instance alone gives the counters AN at position 0, AM and Over 1.5 at position 1, and the totals AM 1, AN 1, Over 1.5 1 |
| Outcomes.AggregateBands | partidas_padroes.py:117-131 | at every position the three goal-band counters add up to the AM counter |
| Outcomes.AggregateAm | partidas_padroes.py:105-137 | the AM total is the number of instances that had a match where both teams scored |
| Outcomes.AggregateAn | partidas_padroes.py:105-138 | the AN total is the number of instances that had a match where a side scored nothing |
| Report.ColumnSumsBands | partidas_padroes.py:148-151 | if every position's goal bands add up to its AM counter, so do the row totals |
| Report.BuildRow | partidas_padroes.py:92-153 | the row keeps its key and has `n` positions; the counters at position `i` count the instances recording AM, each band and AN there; each total counts the instances ending with that flag raised; its totals equal the per-instance flag totals; the AM total counts instances with a both-scored match, the AN total instances with a blank side, and the band totals add up to AM |
| Report.Column | partidas_padroes.py:143-147 | one counter's cells, position by position |
| Report.Cells | partidas_padroes.py:143-155 | the row's cells are five blocks of `n` position cells (Over 1.5, Over 2.5, Over 3.5, AM, AN) followed by the five totals |
| Report.Recompute | partidas_padroes.py:158-162 | re-deriving the totals leaves the position cells untouched |
| Report.SumColumn | partidas_padroes.py:158-162 | the sum of one counter's column is that counter's column sum |
| Report.RecomputeCells | partidas_padroes.py:158-162 | a row whose totals are its column sums is unchanged by the recomputation |
| Report.RecomputeKeepsRow | partidas_padroes.py:148-162 | for every built row the recomputed totals (158-162) equal the appended sums (148-152) |
| Report.LexGeTotal | partidas_padroes.py:171 | any two rows are comparable in the sort order |
| Report.LexGeTransitive | partidas_padroes.py:171 | the sort order is transitive |
| Report.LexGeAntisymmetric | partidas_padroes.py:171 | rows that each rank at least as high as the other have the same five totals |
| Report.LexGeReflexive | partidas_padroes.py:171 | every row ranks at least as high as itself |
| Report.Insert | partidas_padroes.py:171 | inserting a row adds exactly that row to the multiset of rows |
| Report.SortRows | partidas_padroes.py:171 | the sorted table is a permutation of the rows |
| Report.InsertSorted | partidas_padroes.py:171 | inserting into an ordered table keeps it ordered |
| Report.SortRowsSorted | partidas_padroes.py:171 | the sorted table is descending by (Total AM, Total AN, Total Over 1.5, Total Over 2.5, Total Over 3.5), lexicographically |
| Report.InsertStable | partidas_padroes.py:171 | inserting a row leaves the relative order of the rows sharing any one set of totals unchanged, with the new row first among its ties |
| Report.SortRowsStable | partidas_padroes.py:171 | the sort is stable: rows with equal totals keep their input order |
| Report.SortRowsIdempotent | partidas_padroes.py:171 | an already ordered table is left as it is |
| Report.FirstOutOfBounds | partidas_padroes.py:112-134 | finds the first retained window holding an instance that fires at a position past the window, where a counter index overruns its list |
| Report.BuildRows | partidas_padroes.py:92-153 | the rows are built exactly when no instance fires past its window, one row per retained window in order; otherwise the error names the first window with an instance that does |
| Report.BuildReport | partidas_padroes.py:92-171 | the report fails exactly when the rows cannot be built, and otherwise is a permutation of them |
| Report.EntriesFor | partidas_padroes.py:92 | one entry per key of the retained dict, in its order, with that key's instances |
| Report.SortedTiesKeepKeys | partidas_padroes.py:171 | after the stable sort, rows with equal totals keep the order of their keys in the input |
| Report.BuildReportOrdered | partidas_padroes.py:92-171 | a successful report is ordered by its totals, highest first, and rows with equal totals follow the retained dict's key order |
| Report.Summary | partidas_padroes.py:80-171 | the whole table: a failed scan is reported as such; after a successful scan the table fails exactly when some retained window has an instance firing past the window; every row of a table is the row built from its own window's instances |
| Report.ReportRowsBuilt | partidas_padroes.py:92-171 | every row of a successful report has one of the given keys and is the row built from that key's instances |
| Report.SummaryKeys | partidas_padroes.py:92-153 | the table has one row per retained window, and a window has a row exactly when it is retained |
| Report.SummaryOrdered | partidas_padroes.py:41-171 | the table is ordered by its totals, highest first, and rows with equal totals are listed in the order their windows were first seen over the anchor matches |
| Report.ShowCell | partidas_padroes.py:168 | a displayed cell starts with the decimal numeral of its count |
| Report.NineAboveTwelveAsText | partidas_padroes.py:168 | as text, the cell of a count of 9 compares greater than the cell of a count of 12, whatever the denominator and percentages |
| Report.TextOrderMisranks | partidas_padroes.py:168-171 | compared as text, a row with Total AM 9 is placed ahead of one with 12, whatever the denominator and percentages; the numeric order places 12 first |

## Left out

- Reading the workbook (line 16), header promotion and dropping the last three columns (17-20), the widgets (67-77), styling (60-64) and display (173-181): these are I/O and presentation. The prepared table and the user's choices are parameters.
- Line 23 hands `extrair_resultados` a row of cells (`apply(..., axis=1)`) where it expects a string. The model takes the result text of each row, as the function is written.
- Line 25 passes `'\.'` to `str.contains`, a regular expression matching a literal dot. The model tests for the character `.`.
- Outcomes.ParseScore: only ASCII decimal digits are read. The whitespace, sign, underscores and non-ASCII digits that `int()` also accepts are not modelled, and nor are the ValueError and the two-value unpacking error on malformed cells.
- The glue at lines 80-92 and 105 does not run as written. It calls `.items()` on the insufficient-data string (line 83), looks up the missing key `1` (line 87), and iterates over the integer counts (line 105). `Scanner.RetainedWindows` and `Report.Summary` compose the scan, the threshold filter, the rows and the sort as evidently intended, with errors as values. An empty retained dict, which fails at line 87, is the `NoRepeatedWindow` error. How the list of score instances of each retained window is gathered is never written in the source. The instances are the parameter `instancesOf` of `Report.Summary`, and the `Entry` datatype elsewhere.
- An instance that fires AM or AN at a position past the window raises IndexError at lines 118-134 and ends the program. The model returns the error value `CounterOutOfRange` naming that window instead. Firing nothing past the window is harmless, as in the source.
- The window size is not checked anywhere in the code; only the widget at line 77 offers 1 to 5. The model accepts any `n`.
- The percentage text of line 168 and its denominator (lines 88 and 165) are float formatting. `Report.ShowCell` takes the percentage text and the denominator as parameters. Line 88 takes `len(resultado_analise)`, the number of windows tallied before the threshold filter, as the denominator. The division by zero at line 165 when that tally is empty is not modelled.
- The row label `format(key)` (line 93) is kept as the key sequence, and the column names (line 155) are positional blocks. The numeric conversion at line 157 leaves the counts' values unchanged.
- pandas' multi-column `sort_values` is a stable lexicographic sort. `Report.SortRows` is an insertion sort with the same result: a permutation, descending, with ties in input order.
- Edge cases follow the code rather than a cleaner design. A negative threshold behaves like zero. A window size of zero tallies the empty window `L + 1` times.

## Findings

| source | as written | input that shows it | evidently intended | confidence | as-written member | corrected member |
|---|---|---|---|---|---|---|
| partidas_padroes.py:168-171 | every cell from the second column on, the five totals included, is turned into the text `"<count>/<denominator> (<percentage>)"` before the sort at line 171, so the sort compares text character by character | two rows with Total AM 9 and 12: `"9/…"` compares greater than `"12/…"`, so the row with 9 is listed first | rows ordered by the numeric totals, the row with 12 first | medium; not executed | Report.TextOrderMisranks | Report.SortRowsSorted |
