# Questionnaire cleaning pipeline, modelled in Dafny

This project models `clean(filename, format, onlyOutputFinalFile)` of
`data/clean.py`. It turns one questionnaire spreadsheet into the final
survey table. The steps are:

- The spreadsheet is read and its columns are named. It is either a raw
  export with 11 columns, or a file this program already produced, with 18
  columns.
- A raw export has its cells sanitised. Each cell loses the literal
  phrases of a list, and then its surrounding whitespace. pandas decides
  which patterns apply to a cell from the cell's original value. A phrase
  is deleted only if it occurred in the original. The trim applies only if
  the original had whitespace at an end.
- A raw export has its three doctor fields split into name, hospital and
  position.
- The columns are put in one 18-column order with a `category` column in
  front.
- Rows are removed in two stages: first those that mention an exclusion
  keyword, then those with a missing cell (raw exports only). Each stage
  reports the original positions it removed, in increasing order.
- The table is cut to its first 100 rows.
- Three rows are overwritten with attention-check questions.

Every snapshot `output(suffix)` writes, and the name it is written under, is
part of a run's result. The model also covers the file handling of
`main`:

- the `.xlsx` completion of a name given on the command line;
- the filter that picks the inputs of a directory run;
- the skip rule for Excel lock files;
- the loop over the files, which stops at the first run that fails;
- the filter that collects the `FINAL` files.

A table is a list of column names and a list of rows. A cell is
`Option<string>`, where `None` is pandas' NaN. Every row keeps the 0-based
position it had in the spreadsheet, which is the DataFrame index label.
Every stage is a pure function. A run is `Clean(filename, format,
onlyFinal, sheet)`. It returns the writes, in order, and either a `Report`
or the error that stopped it:

- `ColumnCountMismatch`: neither 11 nor 18 columns;
- `SplitWidthMismatch`: a doctor column did not split into three;
- `NoColumnToDrop`: an already processed file with no rows. The row-wise
  test of line 103 on an empty table gives no booleans, so line 107 leaves a
  table without columns, and line 111 has no second column to drop.
- `TooFewRows`: fewer than 80 rows survived, so an attention-check position
  does not exist.
- `NoExcelEngine`: in "only final" mode with a format other than `csv`, the
  Excel writer is asked to write the finished table under a `.csv` name.

Modules, in dependency order:

- `Wrappers`: `Option` and `Result`.
- `Seqs`: subsequences and strictly increasing lists.
- `Text`: Python string operations: `in`, `re.sub` of a literal, whitespace
  trimming, `'_'.join(s.split())` and `s.split(' ', 2)`.
- `Tables`: the frame, selection, prepending and dropping of columns.
- `Schema`: column counts and the layouts.
- `Sanitiser`: the replacement rules.
- `Doctor`: the doctor split.
- `RawRows`: where each cell of a raw export ends up, one row at a time.
- `Exclusion`: the two row stages and their reports.
- `Attention`: `head(100)` and the checks.
- `Output`: file names.
- `Clean`: the run and the properties of whole runs.

Several behaviours of the code are easy to misread. In each of them the
model does what the code does:

- The attention checks overwrite the rows at positions 39, 59 and 79, each
  of which keeps its index label. They are not inserted with the later rows
  shifted down.
- The snapshot after the cut is written under the suffix `excluded_100`.
- A doctor column with no present cell holding two spaces does not yield
  empty parts. The assignment of a narrower expansion to three column names
  fails, and the run stops.
- The trim is decided on the original cell value. `病情分析： 你好` has
  no whitespace at its ends, so only the label is deleted, and the result
  ` 你好` keeps the space the deletion uncovered
  (`Sanitiser.UncoveredSpaceStays`).
- An already processed file with no rows stops at line 111 before
  anything is written. An empty raw export stops in the doctor split
  (`Clean.CleanEmptySheet`).
- The category of a processed file is its stem as it is. Only a raw export
  and the attention rows get the whitespace-normalised stem.
- The category cell is already present when the keyword test runs, on both
  paths. A stem containing `*`, `图` or `检查结果` therefore removes every
  row, and the run fails with `TooFewRows(0)`, unless the file is processed
  and empty
  (`Clean.KeywordInCategory`, `Clean.CleanKeywordInStem`).
- In "only final" mode the file is always named `.csv`. The writer still
  follows the format, so with a format other than `csv` the Excel writer
  is asked to write a `.csv` name (`Output.FinalModeExcelUnderCsvName`).
  pandas' Excel writer picks its engine from the extension and has none
  for `csv`, so line 143 raises and nothing is written (`Output.FinalWritable`).
  Every run in this mode therefore fails, with `NoExcelEngine` where it
  would otherwise finish, and the loop of `main` stops at its first file
  (`Clean.CleanExcelFinal`).

## Model

| member | source | states |
|---|---|---|
| Output.Stem | data/clean.py:55 | `splitext(p)[0]` is a prefix of `p`. It is shorter than `p` exactly when the last dot lies in the last path component after some non-dot character, and then it cuts at that dot, which is followed by no dot and no slash. |
| Output.StemOfXlsx | data/clean.py:55 | The stem of `base + ".xlsx"` is `base` whenever the last component of `base` has a non-dot character, so the stem of a completed command-line name is the name typed. |
| Output.OutputTarget | data/clean.py:56-63 | A suffix is written exactly when the mode is not "only final" or the suffix contains `FINAL`. The name is `<stem>_<suffix>.csv` in "only final" mode or for the `csv` format, otherwise `.xlsx`. The CSV writer is used exactly for the `csv` format. |
| Output.FinalIsCollected | data/clean.py:59-63 | The `FINAL` suffix is written in both modes, and its file name passes the filter of line 43 that collects the final files. |
| Output.FinalModeExcelUnderCsvName | data/clean.py:57-61 | In "only final" mode with a format other than `csv`, the final file gets a `.csv` name but the Excel writer. |
| Output.FinalWritable | data/clean.py:56-61 | The `FINAL` file is always targeted, and the writer can write it exactly when the mode is not "only final" or the format is `csv`. |
| Output.OutputIsNeverInput | data/clean.py:31 | No file `output` writes is taken as an input by a later directory run, because every output name has an underscore. |
| Output.WithXlsx | data/clean.py:27 | The completed name ends in `.xlsx`. It is the name itself when that already ends in `.xlsx`, and the name plus `.xlsx` otherwise. |
| Output.WithXlsxIdempotent | data/clean.py:27 | Completing a name twice is the same as completing it once. |
| Output.FilterNames | data/clean.py:31 | `filter` keeps, in order, exactly the names that satisfy the predicate. |
| Output.FilesToClean | data/clean.py:24-37 | The loop visits, without skipping, exactly the files that are not Excel lock files and are either the completed command-line name or the batch inputs of the listing, in listing order. A directory run happens when no name is given and also when the name is empty, which Python counts as false. |
| Output.EmptyNameListsDirectory | data/clean.py:25 | An empty command-line name gives the same files as no name. |
| Output.Cleaned | data/clean.py:33-39 | `clean` is called on a prefix of the visited files in which only the last may fail. It covers every file unless one fails, and it stops at the first failure. |
| Output.CleanedAll | data/clean.py:33-39 | `clean` is called on every file exactly when no file before the last one fails. |
| Output.CleanedStopsAtFirstFailure | data/clean.py:33-39 | When file `k` is the first that fails, the files cleaned are exactly files `0..k`. |
| Schema.Detect | data/clean.py:65-76 | Reading succeeds exactly for 11 or 18 columns. 18 columns mean a processed file. Every other count fails with `ColumnCountMismatch` of that count. On success the rows are the spreadsheet's rows, numbered 0, 1, 2, ..., under the layout of the detected kind. |
| Schema.LoadedIndices | data/clean.py:102 | Rows numbered as read are in position order, and their positions are exactly `0..n-1`. |
| Text.DeleteAll | data/clean.py:78-82 | Erasing a literal phrase only deletes characters. A string without the phrase is unchanged, and a one-character phrase leaves none of that character. |
| Text.Trim | data/clean.py:83 | The result is the slice of `s` that starts after the leading whitespace. It has non-whitespace ends, and only whitespace lies before and after it. |
| Text.TrimSubseq | data/clean.py:83 | Trimming only deletes characters. |
| Text.TrimKeepsTrimmed | data/clean.py:83 | A string whose ends are not whitespace is left unchanged by the trim. |
| Text.TrimIdempotent | data/clean.py:83 | Trimming twice is trimming once. |
| Sanitiser.ApplyRule | data/clean.py:85-88 | A rule only deletes characters. The trim rule leaves non-whitespace ends. A rule that finds nothing in the string leaves it unchanged. |
| Sanitiser.ApplyRules | data/clean.py:85-88 | A pattern applies to a cell only if it occurs in the cell's original value, and the applying patterns work in order on what the earlier ones left. The result only deletes characters, and it is the value unchanged when no pattern occurs in the original. |
| Sanitiser.ErasedCharGone | data/clean.py:78 | A pattern that erases a single character leaves none of it, whatever patterns follow: either it occurred in the original and is erased, or no part of the value has it. |
| Sanitiser.LastTrimTrims | data/clean.py:83 | When the last pattern is the trim and the original value has whitespace at an end, the result has none at either end. |
| Sanitiser.SanitiseText | data/clean.py:77-88 | A sanitised cell is a subsequence of the original and never longer. It has no newline, tab or no-break space. A value with whitespace at an end comes out with none at either end. A value in which no pattern occurs comes out unchanged. |
| Sanitiser.OneRuleApplies | data/clean.py:85-88 | When only one pattern occurs in the original value, the replacement is that one pattern's deletion, or nothing if it does not occur either. |
| Sanitiser.OnlyAnalysisMatches | data/clean.py:77-84 | A value without a newline, tab, no-break space, outer whitespace, or the first characters of the other labels can match only the `病情分析：` pattern. |
| Sanitiser.UncoveredSpaceStays | data/clean.py:80-88 | `病情分析： 你好` sanitises to ` 你好`. The trim does not apply, because the original had no whitespace at its ends, so the result starts with a space. |
| Sanitiser.SanitiseCell | data/clean.py:85-88 | A missing cell stays missing, and a present cell stays present. |
| Sanitiser.SanitiseFrame | data/clean.py:85-88 | The replacement keeps the shape, the row positions and the missing cells, and sanitises every present cell. |
| Text.SplitOnSpace | data/clean.py:89 | `s.split(' ', 2)`: with two or more spaces there are three parts. Joined by single spaces they give `s`, and only the last part may hold spaces. With one space there are two space-free parts that give `s` back. With no space the result is `[s]`. |
| Doctor.SplitDoctor | data/clean.py:89-91 | The name, hospital and position of one cell. A missing cell gives three missing parts. With fewer than two spaces the trailing parts are missing, not empty. Otherwise the parts give the cell back. |
| Doctor.PartCount | data/clean.py:89 | A cell splits into three parts exactly when it is present and has at least two spaces. A missing cell counts as one part. |
| Doctor.ExpandWidth | data/clean.py:89 | The expansion of a column is 3 wide exactly when some present cell has two spaces. |
| Doctor.SplitSlot | data/clean.py:89 | Splitting one slot succeeds exactly when the expansion is 3 wide. Otherwise the error records the width. |
| Doctor.SplitAll | data/clean.py:89-91 | The three splits succeed exactly when every doctor column has a present cell with two spaces. The first failure is a `SplitWidthMismatch`. On success the frame gains `hosp1`, `pos1`, ..., `pos3` on the right, and its rows keep their positions. |
| Doctor.ApplySplitColumns | data/clean.py:89 | After one split, `docN`, `hospN` and `posN` read as the names, hospitals and positions of the old `docN` column. |
| Doctor.SplitAllColumns | data/clean.py:89-91 | After all three splits each slot's three columns hold the split of its old doctor column, and every non-doctor column is unchanged. |
| RawRows.SplitPositionsInOrder | data/clean.py:76-91 | After the three splits the columns are the 11 names of line 76 followed by `hosp1`, `pos1`, `hosp2`, `pos2`, `hosp3`, `pos3`, and `SplitPosition` numbers them from left to right. |
| RawRows.SplitStepRow | data/clean.py:89-91 | One split on one row puts the name in place of the doctor field and appends the hospital and the position. |
| RawRows.SplitCellAt | data/clean.py:89-91 | In a split row, each column holds its `SplitCell`. A `docN`, `hospN` or `posN` column holds that part of the split of the old `docN` cell. Every other column holds the old cell of its name. |
| RawRows.SplitAllRow | data/clean.py:89-91 | After the three splits, row `k` is the old row with each `docN` cell replaced by its name and the six hospital and position cells appended. Every column holds its `SplitCell` of the old row. |
| RawRows.SanitisedSplitRow | data/clean.py:85-91 | Row `k` after the replacement and the splits is the split of the sanitised row `k`, and it keeps its position. |
| RawRows.SelectBodyRow | data/clean.py:92 | Selecting the body columns reads each one at its position in the split layout. |
| RawRows.FinalPositionFinds | data/clean.py:92-94 | Every column but `isExcluded` is in the final layout, at its `FinalPosition`. |
| RawRows.ArrangedCells | data/clean.py:92-94 | The category followed by the body columns of the split sanitised row is the row `PreparedFrom` derives from the export row. |
| RawRows.PreparedCellMissing | data/clean.py:85-91 | A prepared cell is missing exactly when its export cell is. A hospital is also missing when the sanitised doctor field has no space, and a position when it has fewer than two. The category is never missing. |
| RawRows.PreparedRowMissing | data/clean.py:113 | A prepared row has a missing cell exactly when its export row has a missing cell or a present doctor field with fewer than two spaces once sanitised. |
| RawRows.PreparedFromMissing | data/clean.py:113 | `dropna()` removes a prepared row exactly when the export row it came from has a missing cell or a short doctor field. |
| Tables.Select | data/clean.py:92 | `df[cols]` has exactly the listed columns, in order, each cell read from its column, and the rows keep their positions. |
| Tables.SelectColumn | data/clean.py:92 | A selected column reads as it did. |
| Tables.PrependConstant | data/clean.py:93-94 | The new `category` column comes first and holds the constant in every row. The other cells follow unchanged, and the rows keep their positions. |
| Tables.PrependColumn | data/clean.py:93-94 | After the constant column is put first, every old column reads as it did, and the new one holds the constant in every row. |
| Tables.DropColumn | data/clean.py:111 | Dropping column `j` removes that name and that cell from every row, and keeps the positions. |
| Text.NormaliseWhitespace | data/clean.py:93 | `'_'.join(s.split())` has no whitespace, and it is `s` itself when `s` has none. |
| Text.NormaliseWhitespaceIdempotent | data/clean.py:93 | Normalising is idempotent, and it leaves `s` unchanged exactly when `s` has no whitespace. |
| Text.WordsSpec | data/clean.py:93 | The words of `s.split()` are non-empty and whitespace-free. Concatenated, they are exactly the non-whitespace characters of `s`, in order. |
| Clean.PrepareProcessed | data/clean.py:66-74 | A processed file gets its unnormalised stem as a new first column. Every row is otherwise unchanged and keeps its position. |
| Clean.PrepareRaw | data/clean.py:76-94 | The raw path succeeds exactly when every sanitised doctor column has a present cell with two spaces, and otherwise fails with `SplitWidthMismatch`. On success the table has the 18 final columns and the same rows by position, each labelled with the whitespace-normalised stem. What each cell holds is stated by `Clean.PrepareRawRow`. |
| Clean.Arrange | data/clean.py:92-94 | After selection and the category, the split table has the 18 final columns and the same rows by position, each labelled with the normalised stem. What each cell holds is stated by `Clean.ArrangeRow`. |
| Clean.ArrangeRow | data/clean.py:92-94 | Row `k` of the arranged table keeps its position and is the row `PreparedFrom` derives from the export row it was split from. |
| Clean.PrepareRawRow | data/clean.py:85-94 | Row `k` of the table the raw path prepares keeps its position, and cell by cell it is the normalised stem followed by what `PreparedFrom` derives from export row `k`. |
| Clean.Prepare | data/clean.py:66-95 | A processed file is always prepared. A raw export is prepared exactly when its doctor fields split. The prepared table keeps the loaded rows by position under the layout of its kind, each labelled with its category. `Clean.PreparedSheet` states the raw rows cell by cell. |
| Clean.ProcessedDrop | data/clean.py:111 | Dropping the second prepared column of a processed file, `isExcluded`, gives exactly the final 18-column layout. |
| Exclusion.Keep | data/clean.py:107 | `df[~mask]` keeps, in order, exactly the rows that pass the test, and none when every row fails. |
| Exclusion.KeepOrdered | data/clean.py:107 | Keeping rows preserves position order. |
| Exclusion.Removed | data/clean.py:108 | The report holds exactly the listed positions that did not survive, and it is strictly increasing when the list is. |
| Exclusion.RemovedIsSortedDifference | data/clean.py:108 | Any strictly increasing list whose elements are exactly the removed positions is the report, so `sorted(set(...) - set(...))` is determined. |
| Exclusion.RemovedCount | data/clean.py:108 | For rows in position order, the report and the kept rows together count every row once. |
| Exclusion.Filter | data/clean.py:103-108 | A stage keeps the columns, and keeps in order exactly the rows that pass. It reports exactly the positions that went, increasing, with report and survivors adding up to the input when positions increase. |
| Exclusion.RemovedExactly | data/clean.py:108 | For rows in position order, a row's position is reported exactly when the test removes that row. |
| Exclusion.DropKeepsNoKeyword | data/clean.py:111 | Dropping a cell never introduces a keyword. |
| Exclusion.KeywordStage | data/clean.py:97-108 | The keyword stage is a filter by the keyword test, and no survivor mentions a keyword. |
| Exclusion.EmptyCellStage | data/clean.py:109-114 | On the processed path the stage drops the second column and reports nothing. On the raw path it is a filter by missing cells, and no survivor has one. |
| Clean.Exclude | data/clean.py:97-114 | Both paths leave a well-formed table with the final 18 columns. |
| Clean.ExcludedRows | data/clean.py:97-114 | Survivors mention no keyword and sit at prepared positions. On the raw path they are prepared rows, in order, with no missing cell. On the processed path the second stage removes nothing. |
| Clean.ExcludedSurvivors | data/clean.py:97-114 | Every survivor of both stages is a `Survivor`: it has no keyword and a prepared position, and on the raw path it is a prepared row with no missing cell. |
| Clean.ExcludeReports | data/clean.py:102-114 | For prepared rows in position order, the survivors stay ordered and both reports are strictly increasing. The reports and the survivors count every row once. A row is in the keyword report exactly when it mentions a keyword. On the raw path a keyword-stage survivor is in the empty-cell report exactly when it has a missing cell. The reports are disjoint and hold only prepared positions. |
| Clean.KeywordReportNumbered | data/clean.py:102-108 | For rows numbered as read, position `i` is in the keyword report exactly when row `i` mentions a keyword. |
| Clean.EmptyCellReportNumbered | data/clean.py:109-114 | For a raw table numbered as read, position `i` is in the empty-cell report exactly when row `i` has no keyword and a missing cell. |
| Clean.ExcludeNumbered | data/clean.py:102-117 | For rows numbered as read, both reports increase and count with the survivors every row once. The empty-cell report holds only rows without a keyword, and it is empty on the processed path. |
| Attention.Head | data/clean.py:132 | `head(n)` is the first `min(len, n)` rows under the same columns. |
| Attention.AttentionCells | data/clean.py:135-139 | A check row has 18 cells: the category, the title `注意力问题`, the instruction for its level, and 15 empty strings. |
| Attention.Instruction | data/clean.py:136-138 | The instruction text mentions the level it asks for. |
| Attention.CheckPositions | data/clean.py:135-139 | The checks land at positions 39, 59 and 79 with levels 4, 2 and 1, and nowhere else. |
| Attention.Overwrite | data/clean.py:142 | `df.loc[label] = cells` replaces the cells of that one row, keeps its label, and leaves every other row unchanged. |
| Attention.WriteChecks | data/clean.py:141-142 | After writing a list of checks, every row is the last check written at its position, or unchanged if there is none. |
| Attention.Inject | data/clean.py:140-142 | Injection fails with `TooFewRows(n)` exactly when there are fewer than 80 rows. Otherwise positions 39, 59 and 79 become the checks for 4, 2 and 1, keeping their labels, and the row count and every other row are unchanged. |
| Clean.Conclude | data/clean.py:132-142 | The cut and the checks fail exactly when fewer than 80 rows survived, reporting that count. Otherwise the table has the final columns and `min(survivors, 100)` rows: the survivors, with the checks (category: the normalised stem) at 39, 59 and 79 keeping the replaced rows' positions. |
| Clean.ConcludePositions | data/clean.py:140-142 | The concluded table keeps the positions of the survivors it holds, so it is in position order when they are. |
| Clean.Emit | data/clean.py:56-63 | One `output` call writes at most one file, and does so exactly when the mode is not "only final" or the suffix contains `FINAL`. The file holds the current table, under the name and writer `output` picks. |
| Clean.Writes | data/clean.py:95-143 | A run makes at most four writes. |
| Clean.WritesAll | data/clean.py:95-143 | Outside "only final" mode the writes are, in order, `replaced` (raw path only), `excluded`, `excluded_100`, and `FINAL` when there is a final table, each where `output` puts it. The last write holds the final table. |
| Clean.WritesFinalOnly | data/clean.py:59-61 | In "only final" mode the only write is `FINAL` with the final table, and there is none without a final table. |
| Clean.IntermediateNotFinal | data/clean.py:60 | None of `replaced`, `excluded` and `excluded_100` contains `FINAL`. |
| Clean.NoIntermediateWrites | data/clean.py:59-61 | In "only final" mode the `replaced`, `excluded` and `excluded_100` snapshots write nothing. |
| Clean.Finish | data/clean.py:56-143 | An empty processed table fails with `NoColumnToDrop` and writes nothing. Otherwise a run fails for too few rows, or, once the table is concluded, with `NoExcelEngine` and nothing written exactly in "only final" mode with a format other than `csv`. A finished run reports the two stages, the number of survivors and the concluded table, and the writes follow `Writes` either way. |
| Clean.FinishKeeps | data/clean.py:96-143 | A finished run reports the kind and the prepared table it was given. |
| Clean.FinishReports | data/clean.py:102-129 | For rows numbered as read: position `i` is in the keyword report exactly when row `i` mentions a keyword. On the raw path it is in the empty-cell report exactly when it does not and has a missing cell; on the processed path that report is empty. Both reports increase, and with the at least 80 survivors they count every row once. |
| Clean.FinishTable | data/clean.py:132-142 | The final table has the 18 final columns and `min(survivors, 100)` rows, at least 80. Rows 39, 59 and 79 hold the checks for 4, 2 and 1, with the normalised stem as category. |
| Clean.FinishTableRows | data/clean.py:132-142 | Every row of the final table except the checks is a survivor of both stages. |
| Clean.FinishTableOrder | data/clean.py:132-142 | For prepared rows in position order, the final table is in position order and holds only prepared positions. |
| Clean.FinishConcludes | data/clean.py:130-143 | The final table of a finished run is the concluded table of its survivors. |
| Clean.FinishWritesAll | data/clean.py:95-143 | Outside "only final" mode an empty processed table writes nothing. Any other table writes `replaced` (raw path), `excluded`, `excluded_100`, and `FINAL` exactly when it finishes, each where `output` puts it. |
| Clean.FinishWritesFinalOnly | data/clean.py:59-61 | In "only final" mode a run writes the final table alone when it finishes, and nothing when it fails (too few rows, no column to drop, or no Excel engine for the `.csv` name). |
| Clean.KeywordInCategory | data/clean.py:93-108 | When the category mentions a keyword, every row fails the keyword test, and the run fails with `TooFewRows(0)`. An empty processed table fails with `NoColumnToDrop` first. |
| Clean.CleanLoaded | data/clean.py:66-143 | Once the columns are named, a run fails only in the doctor split, for an empty processed table, for a short table, or at the `FINAL` write, the last only in "only final" mode with a format other than `csv`. The split fails exactly for a raw export whose sanitised doctor fields do not all split. `NoColumnToDrop` happens exactly for a processed file with no rows. In both of these cases nothing is written. |
| Clean.Clean | data/clean.py:54-143 | A spreadsheet is rejected for its column count exactly when it has neither 11 nor 18 columns, and then nothing is written. |
| Clean.CleanSplitFailure | data/clean.py:89-91 | A run fails in the doctor split exactly for an 11-column spreadsheet one of whose sanitised doctor columns has no present cell with two spaces, and then nothing is written. |
| Clean.CleanReachesFinish | data/clean.py:65-95 | A run that does not fail for its column count or in the doctor split got through reading and preparation, and it is `Finish` on the prepared table. |
| Clean.PreparedSheet | data/clean.py:65-94 | The prepared table has the spreadsheet's rows, numbered as read, under the layout of its kind (18 columns mean processed), each labelled with the category. For a processed file row `i` is the stem followed by spreadsheet row `i`. For a raw export row `i` is, cell by cell, what `PreparedFrom` derives from spreadsheet row `i`. |
| Clean.CleanPrepared | data/clean.py:65-94 | The same facts, cell by cell on both paths, for the prepared table a finished run reports. |
| Clean.CleanReports | data/clean.py:102-129 | For a finished run, row `i` of the spreadsheet is in the keyword report exactly when its prepared row mentions a keyword. On the raw path it is in the empty-cell report exactly when that row does not and has a missing cell; on the processed path that report is empty. Both reports increase, and with the at least 80 survivors they count every spreadsheet row once. |
| Clean.CleanEmptyCellRows | data/clean.py:85-114 | For a finished run on a raw export, spreadsheet row `i` is in the empty-cell report exactly when its prepared row mentions no keyword, and the row as read has a missing cell or a present doctor field with fewer than two spaces once sanitised. |
| Clean.CleanWritesAll | data/clean.py:95-143 | Outside "only final" mode a run that finishes or fails for a short table writes `replaced` exactly for an 11-column spreadsheet, then `excluded` and `excluded_100`, then `FINAL` exactly when it finishes, each where `output` puts it. |
| Clean.CleanWritesFinalOnly | data/clean.py:59-61 | In "only final" mode a run that gets past the preparation writes the final table alone when it finishes, and nothing when it fails. |
| Clean.ExcelFinalFinish | data/clean.py:56-61 | In "only final" mode with a format other than `csv`, a run over a prepared table writes nothing, fails where the `csv` run fails, and fails with `NoExcelEngine` where the `csv` run finishes. |
| Clean.CleanExcelFinal | data/clean.py:56-143 | With `-f` and a format other than `csv`, every run fails and writes nothing. It fails with `NoExcelEngine` exactly when the same run with the `csv` format finishes, and otherwise with the `csv` run's error. |
| Clean.CleanKeywordInStem | data/clean.py:93-108 | A spreadsheet whose category mentions a keyword makes a run that gets past the preparation fail with `TooFewRows(0)`, or with `NoColumnToDrop` when it is an empty processed file. |
| Clean.CleanEmptySheet | data/clean.py:65-111 | A spreadsheet with no rows writes nothing. With 18 columns it fails with `NoColumnToDrop`, with 11 in the split of `doc1`, and with any other width for its column count. |

## Left out

- Reading and writing files: `read_excel`, `to_csv`, `to_excel`, `read_csv`. A spreadsheet is given as a column count and rows of cells. A write is recorded as its suffix, target name, writer and table. Of what the pandas writers do with a name, only the Excel writer's refusal of a `.csv` name is modelled (`NoExcelEngine`).
- Sanitiser.ApplyRules: the patterns are literal phrases and the trim, not general regular expressions. The model does what pandas does with them. Whether a pattern applies to a cell is decided on the original value, and the applying patterns then run in list order.
- Exclusion.HasKeyword: `str(row)` is modelled as the full text of the present cells. With pandas' default `display.max_colwidth` of 50, `str(row)` prints a longer cell cut short and ending in `...`. A keyword that sits beyond that cut, say deep in a long description, therefore does not exclude the row in the program, while the model excludes it. The column names, the `Name:` and `dtype:` lines and `NaN` contain no keyword.
- Console output: the coloured messages and the ten-per-line layout of the reports (lines 5-15, 118-129). Only the reports and counts are modelled.
- `main`'s process side effects: `rm` through `os.system`, `exit` and `os.listdir` (lines 18-30). The directory listing is a parameter of `Output.FilesToClean`, and each call to `clean` in the loop is one `Clean`.
- Output.Cleaned: whether a call to `clean` raises is a parameter `fails`. For a spreadsheet it is whether the `Clean` run ends in a failure. In "only final" mode with a format other than `csv` it holds for every file (`Clean.CleanExcelFinal`), so only the first file is cleaned. The loop has no `try`, so the first failing call ends the script: the later files are not cleaned, and the `FINAL` files are not combined (lines 41-51).
- The combination of the `FINAL` files (lines 44-51): reading, concatenating and deleting files is I/O over `pd.concat`. Only the predicate that selects the files is modelled.
- Command-line parsing (lines 145-179).
- `app.py`: a web front end with request handling and a mutable module-level table.
- The root `clean.py`: a one-off replacement script whose rules are a subset of the sanitiser's.
- `os.path.splitext` is modelled for POSIX paths, with `/` as the only separator.
- Cells that `read_excel` reads as numbers or dates are taken as their text. pandas keeps them as numbers: the replace skips them, and `.str.split` gives `NaN` for them. In the cases traced through the stages the row is kept or dropped in the same way.
- Text.IsWhitespace: Python's `str.isspace` is modelled by its list of characters.
- Clean.Finish: a raw table with no rows is taken through the stages like any other, so it reaches the short-table failure, and its snapshots are empty 18-column tables. pandas would meet the same empty row-wise test as for an empty processed file. No spreadsheet gets there, because an empty raw export already fails in the doctor split (`Clean.CleanEmptySheet`).
