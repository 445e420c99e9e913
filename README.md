# A verified model of the EDA engine and the markdown utilities

This project is a Dafny model of two parts of a FastAPI back end:

- **The exploratory-data-analysis (EDA) engine** in `app/services/eda_service.py`. It loads a
  dataset file by its extension and removes columns into a derived `<stem>_eda<suffix>` file.
  It profiles every column: missing values, distinct values, summary statistics for numeric
  columns, and a frequency table and mode for the other columns. It builds the chart data:
  histograms, box plots, bar charts, the correlation matrix with its strong pairs, the
  missing-data matrix and scatter plots of the most correlated pairs. It also generates the
  six rule-based insights.
- **The markdown utilities** in `app/utils/markdown.py`. They decide whether a chat message
  is markdown and give a confidence score. They split a message into heading sections, wrap
  a response with its markdown metadata, and format every message of a conversation.

A data frame is modelled as a `Table` of row count and columns. Each column has a name, a
dtype kind (`Numeric`, `Boolean`, `Object` or `Other`) and one `Option` cell per row, where
`None` is a missing value. Pandas and numpy operations are written out as functions on
these values:

- `select_dtypes`, `dropna`, `nunique` and `value_counts`;
- linear-interpolation `quantile`, `np.histogram` and `duplicated`.

Each operation whose source is a loop is a Dafny `method` with loop invariants, proved equal
to its specification function. The ranking sort of the scatter plots is an in-place
insertion sort on an `array`. The dataset directory is a class whose `files` map the
column remover updates.

Numbers are exact `real`s. The standard deviation, Pearson's r and the random sampler are
function parameters. So are the eleven regular expressions of the markdown detector other
than the heading pattern (see "Left out").

The code differs from the behaviour one might expect in a few places, and the model follows
the code:

- The loader lower-cases the file extension, but the saver compares it as written. A file
  such as `X.CSV` therefore loads, and a column removal then reports `X_eda.CSV` without
  writing it.
- Boolean columns are numeric for `analyze_column` (`is_numeric_dtype`). They are not
  numeric for the charts, correlation, scatter plots or outlier insight
  (`select_dtypes(np.number)`).
- Bar-chart percentages are shares of the shown (at most 15) bars, not of all rows.
- An object column whose cells are all missing makes `generate_insights` raise. Its
  `value_counts()` is empty, so `iloc[0]` fails. The model returns an `EmptyValueCounts`
  failure for it.
- On a table with no rows, every percentage is NaN (modelled as `None`). Every column then
  counts as a unique identifier.
- `duplicated()` on a frame with no columns marks no row, so such a frame reports no
  duplicate rows and gets no duplicate insight, whatever its row count.

## Model

| member | source | states |
|---|---|---|
| EdaLoader.FormatOf | app/services/eda_service.py:25-34 | an extension has a reader exactly when it is one of .csv, .xlsx, .xls, .json, .parquet |
| EdaLoader.BaseName | app/services/eda_service.py:75-76 | the last component of a path holds no separator, and a bare file name is its own last component |
| EdaLoader.Stem | app/services/eda_service.py:75 | stem followed by suffix gives back the path's last component, and the stem holds no separator |
| EdaLoader.Suffix | app/services/eda_service.py:76 | the suffix is empty or a dot followed by at least one character and no further dot, and it holds no separator |
| EdaLoader.SuffixOfLastComponent | app/services/eda_service.py:75-76 | the suffix and stem of dir/name are those of name: the directory, dots included, plays no part |
| EdaLoader.Lower | app/services/eda_service.py:23 | lower-casing maps each character on its own, changing only A-Z |
| EdaLoader.LoadDataset | app/services/eda_service.py:21-34 | loading succeeds exactly when the lower-cased suffix names a format, the file exists and holds data of that format; the result is the stored table; an unknown suffix fails with that suffix |
| EdaLoader.DatasetDir.Load | app/services/eda_service.py:21-34 | a successful load returns the table stored under the name |
| EdaLoader.KnownExtensionsAreLower | app/services/eda_service.py:23-32 | every accepted extension is already lower case, so lower-casing is what lets upper-case names in |
| EdaLoader.DerivedKeepsSuffix | app/services/eda_service.py:74-77 | the derived name keeps the suffix and appends _eda to the stem |
| EdaLoader.TrailingDotDerivedSuffix | app/services/eda_service.py:74-77 | every file name of two or more characters ending in a dot has no suffix, its derived name is the name followed by _eda, and that derived name has the suffix ._eda |
| EdaLoader.UpperCaseSuffixLoads | app/services/eda_service.py:23-26 | X.CSV holding CSV data loads |
| EdaColumnEditor.RemoveColumnsCorrect | app/services/eda_service.py:60-77 | removal fails exactly when a requested name is not a column, listing those names in request order with their repetitions; otherwise the rows are kept, the remaining columns are the others in their order, the removed list is the request, and the new name is the derived one |
| EdaColumnEditor.EditPlanOrder | app/services/eda_service.py:56-65 | a load error is reported before any column check; otherwise the removal works on the loaded table |
| EdaColumnEditor.RemoveColumnsAndSave | app/services/eda_service.py:37-91 | the result is the loading and removal plan; the output directory changes only on success, and then by the saver alone |
| EdaColumnEditor.Save | app/services/eda_service.py:79-89 | the directory after saving is the saver's map over the old one |
| EdaColumnEditor.SaveRoundTrip | app/services/eda_service.py:74-89 | for a lower-case known suffix, loading the derived name after saving returns the cleaned table |
| EdaColumnEditor.UpperCaseSuffixNotSaved | app/services/eda_service.py:82-89 | a suffix known only after lower-casing writes nothing |
| EdaColumnEditor.UpperCaseSuffixExample | app/services/eda_service.py:23-89 | removing a column from X.CSV succeeds and names X_eda.CSV, but no such file exists afterwards |
| EdaColumnEditor.NoDerivedFile | app/services/eda_service.py:80-89 | when X.CSV is the only file, X_eda.CSV cannot be loaded after the save |
| EdaColumnEditor.ReportedOvercountExample | app/api/eda.py:161 | for any two columns named a and b and any file name, removing ["a", "a"] succeeds and the reported original column count is 3 |
| EdaColumnEditor.OriginalColumnCountCorrect | app/api/eda.py:161 | counting the distinct removed names plus the remaining columns gives the original number of columns |
| EdaColumnEditor.LoweredSaveRoundTrip | app/services/eda_service.py:79-89 | a saver that lower-cases the suffix, as the loader does, makes every loadable name round-trip |
| EdaTable.NumberColumns | app/services/eda_service.py:171 | select_dtypes(np.number) keeps exactly the numeric columns, in order |
| EdaTable.ObjectColumns | app/services/eda_service.py:232 | select_dtypes('object') keeps exactly the object columns, in order |
| EdaTable.Percentage | app/services/eda_service.py:141 | count / rows * 100, undefined (NaN) when there are no rows |
| EdaTable.DistinctCountBounds | app/services/eda_service.py:142 | nunique is at most the number of present cells and is zero exactly when none is present |
| EdaStatistics.Sort | app/services/eda_service.py:152 | sorting gives an ascending permutation of the values |
| EdaStatistics.MinOf | app/services/eda_service.py:150 | the minimum is one of the values and no value is below it |
| EdaStatistics.MaxOf | app/services/eda_service.py:151 | the maximum is one of the values and no value is above it |
| EdaStatistics.QuantileBounds | app/services/eda_service.py:152-153 | every quantile lies between the minimum and the maximum |
| EdaStatistics.QuantileMonotone | app/services/eda_service.py:152-153 | a larger q never gives a smaller quantile |
| EdaStatistics.QuantileEnds | app/services/eda_service.py:150-153 | quantile 0 is the minimum and quantile 1 the maximum |
| EdaStatistics.FiveNumbersOrdered | app/services/eda_service.py:209-223 | min <= q25 <= median <= q75 <= max |
| EdaStatistics.MedianIsMiddle | app/services/eda_service.py:148 | the median is the middle sorted value, or the mean of the two middle ones |
| EdaValueCounts.ValueCountsCorrect | app/services/eda_service.py:157 | value_counts lists each distinct value once with its number of occurrences, most frequent first; the counts sum to the number of values |
| EdaValueCounts.TopCounts | app/services/eda_service.py:157-158 | head(k) keeps min(k, distinct) entries, still descending and exact |
| EdaValueCounts.TopIsMostFrequent | app/services/eda_service.py:242 | a value left out of head(k) occurs no more often than any value kept |
| EdaValueCounts.FirstIsMostFrequent | app/services/eda_service.py:370-371 | the first entry of value_counts is at least as frequent as any value |
| EdaValueCounts.Mode | app/services/eda_service.py:159 | there is a mode exactly when some value is present |
| EdaValueCounts.ModeCorrect | app/services/eda_service.py:159 | the mode is a most frequent value and is the least such string |
| EdaProfiler.AnalyzeColumn | app/services/eda_service.py:132-161 | building the statistics field by field gives the column profile |
| EdaProfiler.ProfileCounts | app/services/eda_service.py:137-143 | missing count, its percentage of the rows and the distinct count, which is zero exactly when every cell is missing |
| EdaProfiler.ProfileNumeric | app/services/eda_service.py:145-153 | for a numeric or boolean column the seven statistics are all absent exactly when every cell is missing; otherwise they are mean, median, std, min, max and the 0.25 and 0.75 quantiles of the present values, in order; no top values or mode |
| EdaProfiler.ProfileCategorical | app/services/eda_service.py:155-159 | for any other column, no numeric statistics; the ten most frequent values with their exact counts, and the most frequent value as mode unless every cell is missing |
| EdaProfiler.PercentageBounds | app/services/eda_service.py:141 | a percentage of a part of the rows is defined exactly when there are rows, and then lies in [0, 100] |
| EdaProfiler.GetColumnStats | app/services/eda_service.py:164-166 | one profile per column, in column order |
| EdaProfiler.DuplicatesAndDistinctRows | app/services/eda_service.py:126 | the rows marked as repeats of an earlier row plus the number of distinct rows is the number of rows |
| EdaProfiler.DuplicatedRows | app/services/eda_service.py:126 | duplicated().sum() is 0 for a frame with no columns; otherwise it plus the number of distinct rows is the number of rows |
| EdaProfiler.GetOverview | app/services/eda_service.py:117-129 | the overview counts the rows and columns, lists the column names in order, and counts the duplicate rows: none without columns, otherwise rows minus distinct rows |
| EdaProfiler.DtypesOfDistinct | app/services/eda_service.py:119 | the dtype map gives each column its own kind |
| EdaProfiler.GetMissingDataMatrix | app/services/eda_service.py:282-291 | one entry per column and the row count |
| EdaProfiler.MissingDataMatrixCorrect | app/services/eda_service.py:284-289 | each entry names its column, counts its missing cells and gives their percentage of the rows |
| EdaProfiler.GetColumnInfo | app/services/eda_service.py:93-114 | a load error is passed on; otherwise the k-th entry is the entry of the k-th column, one per column, with the column and row totals |
| EdaProfiler.ColumnEntries | app/services/eda_service.py:98-108 | the loop over the columns builds the k-th entry from the k-th column, one entry per column |
| EdaProfiler.EntryOfCorrect | app/services/eda_service.py:99-107 | each entry's numeric flag, missing percentage, distinct count and first three present values |
| EdaHistogram.CeilLog2 | app/services/eda_service.py:181 | the least k with 2^k >= n, that is ceil(log2 n) |
| EdaHistogram.BinCount | app/services/eda_service.py:181 | the number of bins lies between 1 and 50 |
| EdaHistogram.BinCountExamples | app/services/eda_service.py:181 | 1, 2, 9 and 1000 values give 1, 2, 5 and 11 bins |
| EdaHistogram.Range | app/services/eda_service.py:184 | the histogram range is [min, max], widened by 0.5 on each side when min equals max |
| EdaHistogram.EdgesAscending | app/services/eda_service.py:184 | the bin edges rise strictly from the low end to the high end |
| EdaHistogram.BinIndexCorrect | app/services/eda_service.py:184 | each value falls in a half-open bin, or in the last bin, which is closed |
| EdaHistogram.BinCountsSum | app/services/eda_service.py:184 | the bin counts add up to the number of values |
| EdaHistogram.BinIndexIff | app/services/eda_service.py:184 | a value is assigned bin k exactly when it lies in [e_k, e_k+1), or in the closed last bin [e_b-1, e_b] |
| EdaHistogram.BinCountsExact | app/services/eda_service.py:184 | count k is the number of values lying in bin k |
| EdaHistogram.BinsCorrect | app/services/eda_service.py:184 | numpy.histogram's edges rise from the low to the high end of the range, every value falls in a bin, each count is the number of values in its bin, and the counts sum to n |
| EdaHistogram.HistogramCorrect | app/services/eda_service.py:180-193 | a histogram has min(ceil(log2 n) + 1, 50) bins over rising edges spanning the range, count k is the number of values in bin k, and the counts sum to n |
| EdaHistogram.HistogramsCover | app/services/eda_service.py:174-178 | the k-th histogram is the histogram of the k-th given column that has a present value, and there is one for each such column and no other |
| EdaHistogram.GetHistogramData | app/services/eda_service.py:169-195 | the loop, building each histogram through ColumnHistogram as the loop body does, gives the histograms of the first max_columns numeric columns |
| EdaBoxPlot.Fence | app/services/eda_service.py:211-214 | the fence encloses the quartiles and is four interquartile ranges wide |
| EdaBoxPlot.BoxPlotCorrect | app/services/eda_service.py:209-224 | min, the quartiles, median and max of the present values, in order inside the fence; the outliers are the first 100 values outside the fence, in their original order |
| EdaBoxPlot.AllOutliersReported | app/services/eda_service.py:215-224 | below the cap, every value outside the fence is reported as often as it occurs, and nothing inside it |
| EdaBoxPlot.BoxPlotExample | app/services/eda_service.py:204-224 | the column 1, 2, 2, 3, missing, 4, 100, 5, 6, 7 has quartiles 2 and 6, median 4, and the single outlier 100 |
| EdaBoxPlot.BoxPlotsCover | app/services/eda_service.py:203-207 | the k-th box plot is that of the k-th given column that has a present value, and there is one for each such column and no other |
| EdaBoxPlot.GetBoxPlotData | app/services/eda_service.py:198-227 | the loop, building each record inline through BoxPlotFor, gives the box plots of the first max_columns numeric columns |
| EdaBarChart.ChartedColumnsCorrect | app/services/eda_service.py:232-237 | at most max_columns object columns with 2 to 20 distinct values, in table order, and all of them when fewer |
| EdaBarChart.ChartCorrect | app/services/eda_service.py:241-248 | the chart shows the min(15, distinct) most frequent values, each once with its exact count, counts descending, and nothing left out is more frequent |
| EdaBarChart.ChartPercentages | app/services/eda_service.py:243-249 | every percentage is in (0, 100] and together they make 100 |
| EdaBarChart.SharesProportional | app/services/eda_service.py:249 | each percentage is its count times 100 over the shown total |
| EdaBarChart.ChartsInOrder | app/services/eda_service.py:241-250 | the k-th chart is the chart of the k-th selected column |
| EdaBarChart.GetBarChartData | app/services/eda_service.py:230-252 | one chart per selected column, in order |
| EdaPairs.AllPairsCorrect | app/services/eda_service.py:265-266 | the double loop visits each pair i < j exactly once, in row-major order, keeping those whose entry passes |
| EdaCorrelation.CorrMatrix | app/services/eda_service.py:262 | a square matrix whose entry (i, j) is r of columns i and j |
| EdaCorrelation.CorrelationShape | app/services/eda_service.py:257-262 | no matrix exactly when there are fewer than two numeric columns; otherwise the numeric column names and r of every pair |
| EdaCorrelation.HighCorrelationsCorrect | app/services/eda_service.py:264-273 | the strong correlations are exactly the pairs i < j with \|r\| > 0.7, each once, in row-major order, with both names and r |
| EdaCorrelation.HighCorrelationRange | app/services/eda_service.py:268-272 | for a true correlation coefficient every strong value lies in [-1, -0.7) or (0.7, 1] |
| EdaCorrelation.MatrixSymmetric | app/services/eda_service.py:262 | for a symmetric r the matrix is symmetric |
| EdaCorrelation.HighPairs | app/services/eda_service.py:264-273 | the nested loops produce the strong-pair records of the matrix |
| EdaCorrelation.GetCorrelationMatrix | app/services/eda_service.py:255-279 | the correlation matrix record of the table |
| EdaPairSort.SortOrdered | app/services/eda_service.py:311 | sort by strength, reversed, leaves strengths non-increasing |
| EdaPairSort.SortDesc | app/services/eda_service.py:311 | the sorted pairs are a permutation of the candidates |
| EdaPairSort.SortStable | app/services/eda_service.py:311 | pairs of equal strength keep their original order |
| EdaPairSort.SortPairs | app/services/eda_service.py:311 | the in-place sort leaves the array holding the stable descending sort of its old contents |
| EdaPairSort.TopStrongest | app/services/eda_service.py:311-312 | the first max_pairs are candidates, strongest first, and none left out is stronger |
| EdaScatter.CandidatesCorrect | app/services/eda_service.py:304-309 | the candidates are exactly the pairs i < j with a defined r, each once, in row-major order, with \|r\| |
| EdaScatter.CandidatesNonNegative | app/services/eda_service.py:307 | no candidate strength is negative |
| EdaScatter.CompleteRowsAreDropna | app/services/eda_service.py:316 | the complete rows are, in order, the row pairs of the two columns whose cells are both present numbers, each as its pair of values |
| EdaScatter.PlotPoints | app/services/eda_service.py:315-321 | a plot has min(1000, complete rows) points drawn from the complete rows of the pair |
| EdaScatter.ScatterPlotsCorrect | app/services/eda_service.py:294-330 | no plots with fewer than two numeric columns; otherwise at most max_pairs plots of candidate pairs, strongest first, none left out stronger, each with its sampled points |
| EdaScatter.RankPairs | app/services/eda_service.py:311-312 | the ranked pairs are the first max_pairs of the descending sort |
| EdaScatter.DefinedPairs | app/services/eda_service.py:304-309 | the nested loops collect the candidates of the matrix |
| EdaScatter.PlotPairs | app/services/eda_service.py:314-328 | one plot per ranked pair, in order |
| EdaScatter.GetScatterPlotData | app/services/eda_service.py:294-330 | the scatter plots of the table |
| EdaCharts.GetAllChartData | app/services/eda_service.py:333-342 | the collection of the six chart builders with their default limits (10, 10, 8 and 5) |
| EdaInsights.MissingInsightsCorrect | app/services/eda_service.py:350-355 | one insight exactly when some column is more than half missing, naming every such column |
| EdaInsights.DuplicateInsightsCorrect | app/services/eda_service.py:357-360 | one insight exactly when the frame has columns and two rows are equal, carrying the duplicate count, which is the rows minus the distinct rows |
| EdaInsights.UniqueInsightsExact | app/services/eda_service.py:362-365 | one insight per column with as many distinct values as rows, in column order |
| EdaInsights.ZeroRowsAllIdentifiers | app/services/eda_service.py:362-365 | with no rows, every column is reported as a unique identifier |
| EdaInsights.ImbalanceInsightsExact | app/services/eda_service.py:367-375 | when it does not fail, one insight per object column with under 10 distinct values whose top value covers more than 80% of the rows, with that value and its count |
| EdaInsights.ImbalancedValueIsTop | app/services/eda_service.py:370-374 | the reported value is a most frequent one |
| EdaInsights.ImbalanceFailsAtFirst | app/services/eda_service.py:368-371 | the rule fails with the error of the first object column whose value_counts is empty |
| EdaInsights.InsightsFailIff | app/services/eda_service.py:345-391 | generate_insights fails exactly when some object column has every cell missing |
| EdaInsights.OutlierInsightsExact | app/services/eda_service.py:377-384 | one insight per numeric column with an outlier, with the outlier count, in column order |
| EdaInsights.OutliersMatchBoxPlot | app/services/eda_service.py:209-224 | the outlier insight counts what the box plot lists, up to the box plot's cap of 100 |
| EdaInsights.ConstantInsightsCorrect | app/services/eda_service.py:386-389 | one insight exactly when some column has a single distinct value, naming every such column |
| EdaInsights.ThresholdsAsWritten | app/services/eda_service.py:351 | the whole-number thresholds agree with the ratios > 0.5 and > 0.8 |
| EdaInsights.InsightsInOrder | app/services/eda_service.py:345-391 | the insights come in rule order: missing, duplicates, identifiers, imbalance, outliers, constants |
| EdaInsights.GenerateInsights | app/services/eda_service.py:345-391 | running the six rules in turn gives the insight list or the failure |
| EdaInsights.ScanImbalance | app/services/eda_service.py:367-375 | the loop stops at the first failing column |
| MarkdownText.StripCorrect | app/utils/markdown.py:130 | strip keeps a piece of the text bounded by whitespace, neither starting nor ending with whitespace, empty exactly for blank text |
| MarkdownText.JoinSplit | app/utils/markdown.py:117 | joining the lines of a split with newlines gives back the text |
| MarkdownHeading.HeadingLevel | app/utils/markdown.py:123 | a line is a heading of level n exactly when it starts with 1 to 6 hashes, n of them, followed by whitespace |
| MarkdownHeading.SevenHashesNoHeading | app/utils/markdown.py:123 | seven hashes never start a heading |
| MarkdownHeading.HeadingText | app/utils/markdown.py:134 | the heading text is the rest of the first line after the whitespace |
| MarkdownSections.ExtractSections | app/utils/markdown.py:114-148 | the loop over the lines gives the sections of the split content |
| MarkdownSections.SectionHeadings | app/utils/markdown.py:122-146 | the section headings are the non-empty heading texts, in order |
| MarkdownSections.SectionCount | app/utils/markdown.py:122-146 | there are at most as many sections as heading lines |
| MarkdownSections.SectionsFromHeadings | app/utils/markdown.py:123-135 | every section has a non-empty heading and a level 1 to 6 taken from a heading line |
| MarkdownSections.SectionContent | app/utils/markdown.py:126-146 | a heading followed by plain lines up to the next heading yields a section whose content is those lines joined and stripped |
| MarkdownSections.SingleSection | app/utils/markdown.py:122-146 | one heading with plain lines after it gives exactly one section |
| MarkdownDetector.IsMarkdown | app/utils/markdown.py:26-52 | the loop computes whether more than 20% of the pattern checks on non-blank lines match |
| MarkdownDetector.GetMarkdownConfidence | app/utils/markdown.py:55-78 | the loop computes the share of non-blank lines matched by some pattern |
| MarkdownDetector.FirstMatch | app/utils/markdown.py:73-76 | the loop with break finds whether any pattern matches the line |
| MarkdownDetector.ConfidenceRange | app/utils/markdown.py:59-78 | the confidence lies in [0, 1]; it is 0 exactly when the content is empty or no line matches, and 1 exactly when every non-blank line matches |
| MarkdownDetector.ScoreBounds | app/utils/markdown.py:38-45 | the score is between the matched lines and twelve times the matched lines |
| MarkdownDetector.MarkdownConfidence | app/utils/markdown.py:26-78 | content judged markdown has confidence above 0.2 |
| MarkdownDetector.BlankContent | app/utils/markdown.py:31-67 | blank content is not markdown and has confidence 0 |
| MarkdownDetector.MatchesPerLine | app/utils/markdown.py:42-50 | three pattern hits on every non-blank line make content markdown; at most two on every line never do |
| MarkdownResponse.FormatResponse | app/utils/markdown.py:211-236 | the response with content, sender, timestamp, the markdown format record and the display flag |
| MarkdownResponse.DisplayedIsMarkdown | app/utils/markdown.py:235 | a response displayed as markdown is markdown with confidence in (0.3, 1] |
| MarkdownResponse.DisplayCounts | app/utils/markdown.py:235 | the display flag in whole numbers: score above 20% of the checks and matched lines above 30% of the non-blank lines |
| MarkdownResponse.FormatConversation | app/utils/markdown.py:239-254 | one entry per message, in order; a dict is formatted and anything else passes through unchanged |
| MarkdownResponse.DictFields | app/utils/markdown.py:245-249 | content defaults to the empty string, sender to "assistant", and the timestamp is present exactly when given |

## Findings

| source | as written | input that shows it | evidently intended | confidence | as-written member | corrected member |
|---|---|---|---|---|---|---|
| app/services/eda_service.py:76-89 | the saver compares the raw suffix with lower-case extensions while the loader lower-cases it | removing a column from X.CSV: success, new name X_eda.CSV, no file written | write the derived file in the format the loader accepted | medium, not executed | EdaColumnEditor.UpperCaseSuffixExample | EdaColumnEditor.LoweredSaveRoundTrip |
| app/api/eda.py:161 | original_columns = len(removed) + len(remaining), where removed repeats repeated names | removing ["a", "a"] from columns a, b reports 3 original columns | the number of columns of the loaded table | medium, not executed | EdaColumnEditor.ReportedOvercountExample | EdaColumnEditor.OriginalColumnCountCorrect |

`RemoveColumnsAndSave` keeps the as-written saver, since it models the service as it
stands. `SaveDerivedLowered` and `OriginalColumnCount` are the corrected definitions.

## Left out

- File I/O and the pandas readers and writers are not modelled byte by byte. A file holds
  either the table its reader would parse or unparseable content, and a writer stores the
  table under the new name.
- `memory_usage_mb` of the overview is left out. It depends on pandas' in-memory layout.
- The dtype strings (`int64`, `object`, ...) are left out; the model keeps only the kind of
  a column.
- `series.std()` is a parameter of the profiler and the histogram builder. Floating-point
  square roots are not modelled.
- Pearson's r (`DataFrame.corr`) is a parameter. Its properties (range [-1, 1], symmetry)
  are assumed only where a lemma names them as a requirement.
- The random sample of the scatter plots is a parameter that returns a sub-multiset of the
  requested size. Randomness itself is left out.
- Floating-point rounding is not modelled; all arithmetic is exact. In particular, numpy's
  bin edges and bin assignment are exact here, where numpy may round at an edge.
- The eleven non-heading patterns of `MARKDOWN_PATTERNS` are a matcher parameter. Regular
  expressions are not modelled; the heading pattern is written out.
- `MarkdownFormatter.format_as_markdown` is modelled only for its `is_markdown`,
  `confidence` and `sections` fields. `has_code`, `has_links` and `has_lists`, like
  `sanitize_markdown` and `to_html`, depend on further regular expressions and are left
  out.
- `isinstance(content, str)` holds by typing, and a conversation entry that is not a dict is
  carried as opaque text.
- The insight texts (emoji, formatting of percentages with one decimal) are not modelled;
  an insight is a datatype carrying the values the text shows.
- The HTTP layer (`app/api/eda.py`) is not part of this model apart from the original-column
  count of the removal response. That includes upload, the allow-list, the 404 for a missing
  file and the 400 for an empty removal list.
- EdaLoader.BaseName: a path is split at its last '/' only; the trailing separators, `.` and
  `..` components and Windows separators that `pathlib` normalises are not modelled.
- EdaLoader.Lower: lower-cases A-Z only; Python's `str.lower` also folds non-ASCII letters, which no accepted extension contains.
- Integer widths are not modelled: counts are unbounded naturals, as Python integers are.
- EdaCorrelation.HighCorrelationRange and EdaCorrelation.MatrixSymmetric: proved only for a
  parameter r with the range and symmetry of a correlation coefficient. NaN entries of a
  constant column are absent values and never strong.
