# Bid-to-cover ratio analysis: a Dafny model

`BidCoverRatio.py` downloads United States Treasury auction records and charts their
bid-to-cover ratios. Between the download and the charts lies a small record-transformation
pipeline, which is what this project models and proves things about:

- **Maturity-label normaliser** (`convert_security_term`). A free-form label such as "4-Week" or
  "1-Year 11-Month" becomes a number of years. Spaces become dashes. The regular expression
  `(\d+)-([A-Za-z]+)` is scanned for its leftmost non-overlapping matches. Each (number, unit) pair
  adds number/365, /52, /12 or /1 according to an ordered, case-sensitive substring check on the
  unit. The regular expression is modelled as an explicit scanner (`MatchAt`, `FindAll`). The loop
  that accumulates `total_years` is a method proved against a specification function.
- **Per-term time series**. For each distinct label, the series is the rows of that label with a
  ratio, sorted by auction date. Over it, `rolling(window=10).mean()` gives a trailing moving
  average. The model follows pandas' sliding computation and proves it equal to an independent
  reference definition of the trailing mean.
- **Cross-section**. Rows without a ratio are dropped and the rest are ordered by numeric maturity.
  Rows inside a closed date window are kept. The rows of the window's latest auction date are
  singled out.

Records are `Auctions.AuctionRecord` values, after type coercion:

- the auction date is an integer day number;
- the label is a string;
- the ratio is `Option<real>`, with `None` where `pd.to_numeric(errors='coerce')` leaves NaN.

All arithmetic is exact, on `real`.

Files and modules:

- `wrappers.dfy` (`Wrappers`): `Option`.
- `sequences.dfy` (`Sequences`): boolean-mask selection (`Filter`) and the subsequence relation, sorting by a key, sums.
- `auctions.dfy` (`Auctions`): the record.
- `term_normalizer.dfy` (`TermNormalizer`): the label normaliser.
- `time_series.dfy` (`TimeSeries`): the per-term series and the moving average.
- `cross_section.dfy` (`CrossSection`): the cross-sectional selection.

Lines 166-169 select exactly one date, the latest in the window, and its rows.

## Model

| member | source | states |
|---|---|---|
| TermNormalizer.ConvertSecurityTerm | BidCoverRatio.py:134-151 | The loop's `total_years` equals `TermYears(term)`: the left-to-right sum of the contributions of the pairs the scanner finds. It is never negative. |
| TermNormalizer.TermYears | BidCoverRatio.py:138-151 | The value of any label is at least 0, since every contribution is non-negative. |
| TermNormalizer.TokenYears | BidCoverRatio.py:141-149 | The contribution of one pair is never negative, whichever branch of the unit comparison applies. |
| TermNormalizer.SpacesToDashes | BidCoverRatio.py:136 | After `replace(" ", "-")` no space is left. |
| TermNormalizer.SpacesToDashesIdempotent | BidCoverRatio.py:136 | Rewriting a second time changes nothing. |
| TermNormalizer.SpacesToDashesAppend | BidCoverRatio.py:136 | The rewriting works character by character, so it distributes over concatenation. |
| TermNormalizer.SeparatorsInterchangeable | BidCoverRatio.py:136-137 | A label and the same label with every space written as a dash give the same pairs and the same value. |
| TermNormalizer.RunLength | BidCoverRatio.py:137 | A greedy `\d+` or `[A-Za-z]+` takes the longest prefix of its class: every character before the end is in the class, and the next one is not. |
| TermNormalizer.RunLengthAppend | BidCoverRatio.py:137 | A run that stops inside `s` stops at the same place in `s + c`. A run that covers all of `s` continues into `c`. |
| TermNormalizer.Capture | BidCoverRatio.py:137 | The groups of a match are a number and a non-empty run of letters. Scanning resumes in a strictly shorter suffix that does not start with a letter. |
| TermNormalizer.MatchAt | BidCoverRatio.py:137 | A match attempt succeeds only at a digit. It yields a well-formed pair and a strictly shorter suffix that does not start with a letter. |
| TermNormalizer.FindAll | BidCoverRatio.py:137 | Every match takes at least three characters (a digit, the dash, a letter), so a string of n characters yields at most n/3 pairs. |
| TermNormalizer.FindAllSound | BidCoverRatio.py:137 | Every pair reported is the groups of a match that begins where a whole digit run begins (the character before it, if any, is not a digit): the maximal digit run read as a number, a dash, and the maximal non-empty letter run after it. |
| TermNormalizer.FindAllComplete | BidCoverRatio.py:137 | Every match that begins where a whole digit run begins is reported, as `re.findall` returns all non-overlapping matches. |
| TermNormalizer.FindAllIff | BidCoverRatio.py:137 | A pair is reported if and only if it is the groups of a match beginning where a whole digit run begins. |
| TermNormalizer.Tokens | BidCoverRatio.py:136-137 | Every pair in the `matches` list of a label is well-formed: a number and a non-empty run of ASCII letters. |
| TermNormalizer.FindAllWellFormed | BidCoverRatio.py:137 | Every pair `findall` returns has a non-empty all-letter unit. |
| TermNormalizer.MatchAtAppend | BidCoverRatio.py:137 | When `a` ends in a letter and `c` does not start with one, no match crosses the join. Matching at the start of `a + c` is matching at the start of `a`. |
| TermNormalizer.FindAllAppend | BidCoverRatio.py:137 | Under the same condition, the matches in `a + c` are the matches in `a` followed by those in `c`. |
| TermNormalizer.TokensOfJoin | BidCoverRatio.py:136-137 | Joining two labels with a space joins their pair lists, when the first label is empty or ends in a letter. |
| TermNormalizer.Additivity | BidCoverRatio.py:136-151 | Value("a b") = value("a") + value("b") when `a` is empty or ends in a letter. Nothing is required of `b`. |
| TermNormalizer.SumYears | BidCoverRatio.py:140-149 | The running total accumulated over the pairs is never negative. |
| TermNormalizer.SumYearsAppend | BidCoverRatio.py:140-149 | The accumulated total over two lists of pairs is the sum of the two totals. |
| TermNormalizer.NoDigitNoMatch | BidCoverRatio.py:137 | A string without a digit has no match. |
| TermNormalizer.NoDigitsYieldsZero | BidCoverRatio.py:137-151 | A label without digits yields no pairs and the value 0, not an error. |
| TermNormalizer.GarbageIsZero | BidCoverRatio.py:137-151 | "garbage" is worth 0 years. |
| TermNormalizer.Contains | BidCoverRatio.py:142-148 | `sub in s` holds only when `sub` is no longer than `s`, and always holds for the empty word. |
| TermNormalizer.ContainsIff | BidCoverRatio.py:142-148 | The `in` test on strings holds exactly when the word occurs at some position. |
| TermNormalizer.ContainsFirstChar | BidCoverRatio.py:142-148 | A unit that contains a word contains that word's first character. This tells the four unit words apart. |
| TermNormalizer.DayYears | BidCoverRatio.py:142-143 | A "Day" unit is worth n/365: the first check applies. |
| TermNormalizer.WeekYears | BidCoverRatio.py:142-145 | A "Week" unit is worth n/52: it fails the "Day" check and passes the "Week" check. |
| TermNormalizer.MonthYears | BidCoverRatio.py:142-147 | A "Month" unit is worth n/12. |
| TermNormalizer.YearYears | BidCoverRatio.py:142-149 | A "Year" unit is worth n. |
| TermNormalizer.DecimalLeadingZero | BidCoverRatio.py:141 | A leading zero does not change the number: `float("04")` is 4. |
| TermNormalizer.DecimalRoundTrip | BidCoverRatio.py:141 | `float(value)` of the decimal numeral of n is n. |
| TermNormalizer.TokensOfRender | BidCoverRatio.py:136-137 | Round trip: writing well-formed pairs as "n-Unit" words separated by spaces, then normalising and scanning, gives back exactly those pairs. |
| TermNormalizer.RenderYears | BidCoverRatio.py:136-151 | The value of such a written label is the sum of its pairs' contributions. |
| TermNormalizer.WholeYears | BidCoverRatio.py:148-151 | "n-Year" is worth n. |
| TermNormalizer.FourWeeks | BidCoverRatio.py:136-151 | "4-Week" scans to the single pair (4, "Week") and is worth 4/52. |
| TermNormalizer.OneYearElevenMonths | BidCoverRatio.py:136-151 | "1-Year 11-Month" scans to (1, "Year") then (11, "Month") and is worth 1 + 11/12. |
| Sequences.Filter | BidCoverRatio.py:55 | A boolean-mask selection keeps the rows satisfying the mask, each as often as before, in their original relative order. |
| Sequences.SubsequenceSorted | BidCoverRatio.py:155-169 | Selecting rows from a sorted table leaves it sorted. |
| Sequences.SubsequenceTransitive | BidCoverRatio.py:163-169 | A selection of a selection keeps the original relative order. |
| Sequences.SortBy | BidCoverRatio.py:56 | `sort_values` returns a permutation of its input, non-decreasing in the key. |
| Sequences.Insert | BidCoverRatio.py:56 | Inserting into a sorted sequence keeps it sorted and adds exactly the one element. |
| Sequences.SumAppend | BidCoverRatio.py:70 | The sum of a concatenation is the sum of the sums. |
| Sequences.SumBounds | BidCoverRatio.py:70 | A sum of k values in [lo, hi] lies in [k·lo, k·hi]. |
| TimeSeries.UniqueTerms | BidCoverRatio.py:48 | `unique()` lists every label that occurs, each exactly once, and nothing else. |
| TimeSeries.UniqueTermsOrder | BidCoverRatio.py:48 | `unique()` lists the labels in the order of their first appearance: for any two listed labels, the earlier one occurs at a row before which the later one has not occurred. |
| TimeSeries.TermSeries | BidCoverRatio.py:55-56 | The series of a label holds exactly the rows with that label and a ratio, each as often as in the table, in non-decreasing date order. |
| TimeSeries.EveryRatedRowIsPlotted | BidCoverRatio.py:48-56 | Every row with a ratio belongs to the series of its own label, and that label is among the distinct labels. |
| TimeSeries.ObservedComplete | BidCoverRatio.py:70 | A window loses no value exactly when every row in it has one. Its observations are then its values, in order. |
| TimeSeries.ObservedMembers | BidCoverRatio.py:70 | Every observation is a value present in the window. |
| TimeSeries.ObservedAppend | BidCoverRatio.py:70 | The observations of a concatenation are the concatenated observations. |
| TimeSeries.SlideWindow | BidCoverRatio.py:70 | Moving the window one row on adds the entering row and drops the leaving one. |
| TimeSeries.TrailingMean | BidCoverRatio.py:70 | The reference mean at row i is undefined before the tenth row. |
| TimeSeries.Advance | BidCoverRatio.py:70 | One step of pandas' add/remove computation changes the non-NaN count by at most one. |
| TimeSeries.Report | BidCoverRatio.py:70 | A value is reported exactly when the count reaches `min_periods` (10). Multiplied by the count, it gives back the running sum. |
| TimeSeries.AdvancePreserves | BidCoverRatio.py:70 | pandas' add/remove step keeps its running sum and non-NaN count equal to those of the current window. |
| TimeSeries.ReportIsTrailingMean | BidCoverRatio.py:70 | Reporting sum/count once the count reaches `min_periods` (10) gives the reference trailing mean. |
| TimeSeries.Roll | BidCoverRatio.py:70 | The sliding computation's output at every row equals the reference trailing mean. |
| TimeSeries.RollingMean | BidCoverRatio.py:70 | `rolling(window=10).mean()` has one entry per row, each the reference trailing mean: undefined before row 9 or when a value in the window is missing, otherwise the mean of the 10 values. |
| TimeSeries.MovingAverage | BidCoverRatio.py:70 | The `moving_avg` column of a label's series has one entry per row of the series, each the reference trailing mean of its ratios. |
| TimeSeries.TrailingMeanDefined | BidCoverRatio.py:70 | The mean at row i exists if and only if i ≥ 9 and the 10 rows ending at i all have a value. |
| TimeSeries.TrailingMeanBounds | BidCoverRatio.py:70 | A moving average of values in [lo, hi] lies in [lo, hi]. |
| TimeSeries.RatedMovingAverage | BidCoverRatio.py:70 | On a series where every ratio is present, the moving average at i exists if and only if i ≥ 9. It then equals the sum of the ratios at rows i−9..i, divided by 10. |
| TimeSeries.SeriesMovingAverage | BidCoverRatio.py:55-70 | The same holds for the moving average of each label's series. |
| TimeSeries.Traces | BidCoverRatio.py:54-79 | The loop over labels produces one trace per distinct label, in the order of `unique()`, which is the order of first appearance (`UniqueTermsOrder`). Each trace holds its label's series `TermSeries` and that series' moving average `MovingAverage`. |
| TimeSeries.TracesPartitionRows | BidCoverRatio.py:54-56 | Every row with a ratio is drawn in exactly one trace. |
| CrossSection.TermNumeric | BidCoverRatio.py:154 | The `security_term_numeric` of a row is never negative. |
| CrossSection.DropMissingRatios | BidCoverRatio.py:127 | `dropna` keeps exactly the rows with a ratio, each as often as before, in their order. |
| CrossSection.SortByTerm | BidCoverRatio.py:154-155 | Sorting by `security_term_numeric` gives a permutation that is non-decreasing in the numeric maturity. |
| CrossSection.MaturityOrder | BidCoverRatio.py:154-155 | "4-Week" sorts before "1-Year", which sorts before "10-Year". |
| CrossSection.WindowFilter | BidCoverRatio.py:163 | The window filter keeps exactly the rows with start ≤ date ≤ end, each as often as before, in their original relative order. |
| CrossSection.LastAuctionDate | BidCoverRatio.py:166 | `max()` is undefined on no rows. Otherwise it is a date some row has and no row exceeds. |
| CrossSection.LastAuction | BidCoverRatio.py:169 | The selection holds exactly the rows on the latest date, in their order, and is empty only when the filtered table is. |
| CrossSection.AnalyzeCrossSection | BidCoverRatio.py:127-169 | Every row of the window's table has a ratio and a date in the window. The last auction's table keeps the relative order of the window's table and holds only rows on its latest date. |
| CrossSection.FilteredRows | BidCoverRatio.py:127-163 | The window's table holds exactly the rated rows of the input dated in the window, ordered by maturity. |
| CrossSection.RatedRowsInWindow | BidCoverRatio.py:127-163 | Every rated row dated in the window is in the window's table. |
| CrossSection.LastAuctionRows | BidCoverRatio.py:127-169 | The last auction's table holds exactly the input's rated, in-window rows on the window's latest date, ordered by maturity. |
| CrossSection.LastAuctionIsLatest | BidCoverRatio.py:166 | No rated row in the window is dated after the selected date. |
| CrossSection.LastAuctionEmpty | BidCoverRatio.py:166-169 | The last auction's table is empty if and only if the window holds no rated row. |

## Left out

- The HTTP request to the Treasury's fiscal-data service and its error branch (lines 13-35) are network I/O. The model starts from the records.
- The Plotly and ipywidgets figures, traces, dropdown menu, visibility flags and layouts (lines 51-108, 172-201) are rendering only. The data those traces draw is modelled (`TimeSeries.Traces`, `CrossSection.AnalyzeCrossSection`).
- The `print` calls (lines 32, 34-35, 123) are output only.
- `pd.to_datetime` and `pd.to_numeric` (lines 44-45, 112-114, 156) are library parsing. Their results are modelled as already typed: a date as an integer day number, a ratio as `Option<real>`.
- `dt.to_period('W')` (line 117) is library calendar arithmetic. Its column is not used by the analysis.
- Index resets and reassignments (lines 41, 111) are DataFrame bookkeeping with no effect on the rows.
- The sorts by `maturity_date` (lines 120, 130) are superseded by the sort at line 155, and the model has no `maturity_date` field.
- The fixed window bounds "2000-01-01" and "2024-12-31" (lines 159-160) are parameters `start` and `end`.
- The order of rows with equal keys after a sort is unspecified. pandas' default sort is not stable, so `Sequences.SortBy`, `TimeSeries.TermSeries` and `CrossSection.SortByTerm` promise only sortedness and permutation.
- TermNormalizer.FindAllIff: characterises the reported pairs by membership. Their order and multiplicity are pinned down only for concatenations (`FindAllAppend`) and rendered labels (`TokensOfRender`), not for every string.
- Floating-point rounding is not modelled: values such as 4/52 are exact reals.
- Python's `\d` also matches non-ASCII digits. The scanner accepts ASCII digits and letters only.
- In-place column assignment (`df['security_term_numeric']` at line 154, `filtered_df['moving_avg']` at line 70) is modelled as functions that return the column's values: `CrossSection.TermNumeric` and `TimeSeries.MovingAverage`.
