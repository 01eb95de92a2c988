# ECDC COVID-19 severity and variant chart — a Dafny model

The program downloads two ECDC weekly CSV files and draws one chart per
country:

- **Severity bars.** These come from `nonSentinelSeverity.csv`: hospital
  admissions, ICU admissions and deaths, all ages together.
- **Variant lines.** These come from `variants.csv`: the share of each
  SARS-CoV-2 variant, in percent.

Both data sets report by ISO week (`YYYY-Www`). The program does the following:

1. Selects the rows of one country.
2. Sums the variant shares per week and variant, then pivots them into a
   table with one column per variant (missing cells become 0).
3. Pivots the severity rows into one column per indicator.
4. Dates every week by its Monday and drops everything before 2020-08-20.
5. Aligns the variant table onto the severity dates. Weeks without variant
   data become missing.
6. Picks one colour per variant by rejection sampling. A colour must not be
   bright, and it must be farther than 0.2 (Euclidean RGB) from every colour
   already kept.
7. Labels each variant line whose maximum exceeds 40% at the first date of
   that maximum.
8. Builds a legend: the three severity bars first, then one patch per
   variant, laid out in at most nine columns.

The country list shown in the drop-down is the sorted union of the
countries in both files.

The model is split into modules that follow this flow:

| file | module | what it holds |
|---|---|---|
| `wrappers.dfy` | `Wrappers` | `Option` (a missing cell is `None`) and `Result` |
| `ordering.dfy` | `Ordering` | strict orders, sortedness, code-point string order, sort-and-deduplicate |
| `iso_calendar.dfy` | `IsoCalendar` | proleptic Gregorian day numbers (0001-01-01 is day 1) and the ISO week calendar |
| `records.dfy` | `Records` | the CSV rows, the row filters and the country catalogue |
| `tables.dfy` | `Tables` | group-and-sum, both pivots, Monday dating, the epoch cut and the reindex |
| `colors.dfy` | `Colors` | luminance, colour distance and the rejection loop (an imperative method) |
| `render.dfy` | `Render` | peak detection, the annotation loop and the legend loop (imperative methods) |
| `plot.dfy` | `Plot` | `update_plot_with_country` as one method composing all of the above |

Dates are day numbers, not `YYYY-MM-DD` strings. `IsoCalendar.OrdinalOrderIsDateOrder` proves
that comparing two valid dates as (year, month, day) tuples, which their
zero-padded `YYYY-MM-DD` labels compare like, and comparing their day
numbers give the same answer. That is why the label slice
`.loc['2020-08-20':]` is modelled as a cut at the epoch's day number.

After `variants.reindex(severity_pivot.index)`, a severity date with no
variant row holds NaN, not 0. `Tables.Reindex` gives `None` for such
a cell.

## Model

| member | source | states |
|---|---|---|
| `Ordering.StrLessIsStrictTotalOrder` | main.py:41 | Code-point lexicographic string order, as `sorted` uses it, is irreflexive, transitive and total. |
| `Ordering.SortedUnique` | main.py:40-41 | The result is strictly ascending and holds exactly the values of the input, each once. |
| `Ordering.SortedIsDistinct` | main.py:40-41 | A strictly ascending sequence under a strict total order has no repeated element. |
| `Ordering.SortedArrangementIsUnique` | main.py:40-41 | Two strictly ascending sequences with the same members are equal, so the sorted union does not depend on the order of the rows. |
| `IsoCalendar.YearWeekLessIsStrictTotalOrder` | main.py:81-82 | Ordering week tokens by (year, week), the order grouping and pivoting sort them in, is a strict total order. |
| `IsoCalendar.IsoWeekday` | main.py:83 | The ISO weekday of a day number (the `%u` field) lies in 1..7. |
| `IsoCalendar.WeeksInYearRule` | main.py:83 | An ISO year has 52 or 53 weeks. It has 53 exactly when 1 January is a Thursday, or is a Wednesday in a leap year. The next year's week 1 starts that many weeks later. |
| `IsoCalendar.MondayOf` | main.py:83 | The date `%G-W%V-%u` gives a token with day 1: the Monday on or before 4 January of G, then V - 1 weeks on. Its meaning under the Thursday rule is `IsoCalendar.MondayOfStartsItsWeek`. |
| `IsoCalendar.MondayOfStartsItsWeek` | main.py:83 | The date parsed from `%G-W%V-1` is a Monday, and it and the six days after it lie in that ISO week by the Thursday rule. |
| `IsoCalendar.DayOfTokenWeekday` | main.py:83 | Day k after the date parsed from a week token is ISO weekday k + 1. |
| `IsoCalendar.DayOfTokenWeek` | main.py:83 | Day k after the date parsed from a week token has its Thursday in the token's year, in the token's week number counted from that year's first Thursday week. |
| `IsoCalendar.NextWeekIsSevenDaysLater` | main.py:83 | The token after a valid week is valid, is later, and its Monday is seven days later. |
| `IsoCalendar.MondayOfIncreasing` | main.py:83 | A later valid week has a Monday at least seven days later, so dating by Mondays keeps the order and the distinctness of weeks. |
| `IsoCalendar.OrdinalOrderIsDateOrder` | main.py:84 | Two valid dates compare as their labels do exactly when their day numbers compare the same way. They are equal exactly when their day numbers are. |
| `IsoCalendar.CalendarAnchors` | main.py:84 | 2020-08-20 is a Thursday of 2020-W34, whose Monday is 2020-08-17. 2020 has 53 weeks, 2020-W53 starts on 2020-12-28 and 2021-W01 on 2021-01-04. |
| `Records.FilterVariants` | main.py:78-80 | Each row of the given country with pathogen SARS-CoV-2 and indicator `proportion` is kept as often as it occurs. Every other row is dropped. |
| `Records.FilteredVariantMembers` | main.py:78-80 | A row is selected exactly when it is an input row that passes the variant filter. |
| `Records.FilterSeverity` | main.py:92-95 | Each row of the given country with SARS-CoV-2, age `total` and one of the three severity indicators is kept as often as it occurs. Every other row is dropped. |
| `Records.FilteredSeverityMembers` | main.py:92-95 | A row is selected exactly when it is an input row that passes the severity filter. |
| `Records.GetAvailableCountries` | main.py:35-41 | The catalogue is strictly ascending and free of repeats. A name is in it exactly when some row of either file carries it. |
| `Tables.SumOf` | main.py:81 | The reference sum of one (week, variant) group: the values of the rows with that key added up, 0 when there are none. |
| `Tables.SumOfAppend` | main.py:81 | Adding one row adds its value to the sum of its own (week, variant) group only. |
| `Tables.SumOfAbsent` | main.py:82 | A (week, variant) pair that no row reports sums to 0. |
| `Tables.GroupSum` | main.py:81 | There is a group for a (week, variant) pair exactly when some row reports it. Its value is the sum of those rows' values. |
| `Tables.VariantPivot` | main.py:81-82 | Rows are the reported weeks, strictly ascending. Columns are the reported variants, strictly ascending. Each cell is the group sum, 0 where no row reports the pair. |
| `Tables.ZeroFill` | main.py:82 | A pivot cell whose week and variant no row reports holds 0 (`fillna(0)`). |
| `Tables.ToMondays` | main.py:83 | Each week label becomes the day number of its Monday, with columns and cells unchanged. Valid weeks in ascending order give strictly ascending dates. |
| `Tables.DateOf` | main.py:96 | A severity row's `date` is the Monday of its week token. |
| `Tables.SeverityValue` | main.py:98 | Gives the value of a row with the given date and indicator. It is missing exactly when no row has both. |
| `Tables.SeverityPivot` | main.py:96-98 | Rows are the reported Monday dates, strictly ascending. Columns are the reported indicators, sorted. A cell holds the value of the row with its date and indicator, or 0 when there is none. |
| `Tables.LowerBound` | main.py:84 | Every row before the cut is dated before the key, and the row at the cut is not. |
| `Tables.AtOrAfter` | main.py:84 | The reference cut keeps exactly the dates not before the key. |
| `Tables.LowerBoundCutsSorted` | main.py:84 | On ascending dates, the positional cut and the reference cut agree. |
| `Tables.AllAtOrAfter` | main.py:84 | Cutting dates that are all on or after the key keeps all of them. |
| `Tables.Truncate` | main.py:84 | Keeps a suffix of the rows with their cells and all columns. On ascending dates it keeps exactly the dates on or after the epoch, still ascending. |
| `Tables.TruncatedRowOrigin` | main.py:84 | Every row left after the cut is a row of the original table, with its date and its cells. |
| `Tables.PositionOf` | main.py:100 | Gives the first position holding the date. |
| `Tables.Reindex` | main.py:100 | Rows follow the target dates exactly and columns are unchanged. A date the table has brings its own cells. A date it lacks gets a row of missing cells. |
| `Colors.Luminance` | main.py:44-45 | The luminance of an RGB colour is 0.2126 R + 0.7152 G + 0.0722 B. |
| `Colors.IsBright` | main.py:43-47 | A colour is bright when its luminance is strictly above the threshold, 0.7 as called from the colour loop. |
| `Colors.GrayLuminance` | main.py:43-47 | The luminance weights sum to one: a grey of level v has luminance v and is bright exactly when v exceeds the threshold. |
| `Colors.LuminanceInUnitRange` | main.py:43-47 | A colour with components in [0, 1] has a luminance in [0, 1]. |
| `Colors.DistanceSq` | main.py:49-51 | The squared distance is non-negative and is 0 between a colour and itself. |
| `Colors.FartherThan` | main.py:61-63 | A candidate is far enough from a kept colour when their distance exceeds `min_distance`, decided on squares; `Colors.FartherThanIsDistanceAbove` proves the two tests agree. |
| `Colors.FartherThanIsDistanceAbove` | main.py:49-51 | Comparing squared distances is the same as comparing the Euclidean distance with `min_distance`. |
| `Colors.Kept` | main.py:56-64 | The colours kept after a sequence of draws: a draw is appended while fewer than `num_colors` are kept, when it is not bright and lies farther than `min_distance` from every colour kept so far. |
| `Colors.Generated` | main.py:53-65 | The outcome for a sequence of draws: the kept colours once `num_colors` are kept, a failure when the draws run out first. |
| `Colors.KeptProperties` | main.py:56-65 | After any prefix of draws: at most `num_colors` colours are kept, none is bright, each lies farther than `min_distance` from every earlier one, and they appear in draw order. |
| `Colors.SubsequenceExtend` | main.py:64 | A subsequence of the draws so far stays one after a further draw. |
| `Colors.KeptStaysFull` | main.py:58 | Once `num_colors` colours are kept, later draws change nothing: the loop has stopped. |
| `Colors.SeparatedColorsAreDistinct` | main.py:63 | With a non-negative minimum distance, the kept colours are pairwise different. |
| `Colors.RandomColorGenerator` | main.py:53-65 | The loop returns what the rejection rule gives for the draws. On success there are exactly `num_colors` colours, none bright, pairwise farther apart than `min_distance`, in draw order. It fails only when the draws run out. |
| `Render.PresentMax` | main.py:111 | `Series.max()`: the largest present cell of a column, missing when all cells are missing. Its meaning is `Render.PresentMaxIsMaximum`. |
| `Render.PresentMaxIsMaximum` | main.py:111 | The maximum of a column skips missing cells. It is missing exactly when every cell is, it is one of the present values, and it bounds all of them. |
| `Render.FirstIndexOf` | main.py:113 | `.index[0]` of the cells equal to a value: the first position holding it. Its meaning is `Render.FirstIndexOfIsFirst`. |
| `Render.FirstIndexOfIsFirst` | main.py:113 | When the value occurs in the column, the position found holds it and no earlier position does. |
| `Render.PeakOf` | main.py:111-113 | The peak of a line: its maximum and the first date holding it, when that maximum exceeds 40. Its meaning is `Render.PeakOfIsFirstMaximum`. |
| `Render.PeakOfIsFirstMaximum` | main.py:111-113 | There is a peak exactly when some present value exceeds 40. The peak value exceeds 40, is the column maximum, and sits at the first date holding it. |
| `Render.LineLabel` | main.py:112-114 | The `ax2.text` call of one line: a label at its peak, in its colour, or none without a peak. Its meaning is `Render.LineLabelAtPeak`. |
| `Render.Labels` | main.py:109-114 | The labels of the first n lines, in column order. Its meaning is `Render.LabelsAtPeaks`. |
| `Render.LineLabelAtPeak` | main.py:109-114 | A variant line gets at most one label, and gets one exactly when one of its present cells exceeds 40. The label names the variant in its colour, at the first date holding the line's maximum, with that maximum as its value. |
| `Render.LabelsAtPeaks` | main.py:109-114 | With distinct variant names, the labels among the first n lines that name a variant are exactly that variant's own line label, and there are none when its line is not among them. |
| `Render.AnnotatePeaks` | main.py:109-114 | The annotation loop produces the line labels of all columns, concatenated in column order. |
| `Render.AnnotateLine` | main.py:111-114 | One pass of the loop yields exactly that line's label: at most one, present exactly when a present cell exceeds 40, naming the variant in its colour at the first date holding the line's maximum. |
| `Render.BuildLegend` | main.py:125-135 | The legend is the three severity bars followed by one patch per (variant, colour) pair, in column order, with every bar before every patch. The column count is min(9, number of patches). |
| `Plot.WeeklyVariants` | main.py:78-82 | The selected variant rows, grouped, summed and pivoted by week token; `Tables.VariantPivot` states its shape and cells. |
| `Plot.VariantSeries` | main.py:77-84 | The variant table of a country is rectangular and its dates strictly ascend. |
| `Plot.VariantSeriesDates` | main.py:83-84 | Its dates are exactly the Mondays, on or after the epoch, of the weeks the selected rows report. |
| `Plot.VariantSeriesColumns` | main.py:81-84 | Its columns are every variant the selected rows name, including variants reported only before the epoch. |
| `Plot.VariantSeriesCells` | main.py:81-84 | Each cell is the sum of the selected rows of the week dated by that Monday and of that variant. |
| `Plot.SeveritySeries` | main.py:91-99 | The severity table of a country is rectangular and its dates strictly ascend. |
| `Plot.SeveritySeriesAxes` | main.py:92-99 | Its dates are exactly the selected rows' dates on or after the epoch. Its columns are exactly the indicators those rows report. |
| `Plot.UpdatePlotWithCountry` | main.py:74-135 | The aligned variant table has exactly the severity dates and keeps every variant column. There is one colour per variant. Labels and legend follow the column order and the legend columns are min(9, #variants). The run fails exactly when the colour draws run out. |
| `Plot.UnknownCountryGivesNoVariants` | main.py:77-84 | A country with no selected variant rows gets an empty variant table. |
| `Plot.UnknownCountryGivesNoSeverity` | main.py:91-99 | A country with no selected severity rows gets an empty severity table. |

## Left out

- Downloading the CSV files, `read_csv`, the Tk window, the drop-down, the button and all matplotlib drawing are I/O. The model stops at the data the chart is drawn from: the aligned tables, the colours, the peak labels, the legend handles and the legend column count. Bar styling, tick labels, the title and axis limits are not modelled.
- The seeded `random.choice` over the CSS4 palette and `to_rgb` are replaced by the caller's sequence of candidate RGB colours. Colours are RGB values, not palette names.
- `Colors.RandomColorGenerator`: the original loop may run forever when too few acceptable colours exist. The model bounds it by the candidate sequence and reports `NotEnoughCandidates` when that runs out.
- Floating-point arithmetic is modelled with exact reals. `Colors.DistanceSq` replaces the square root of `np.linalg.norm` by a comparison of squares, justified by `Colors.FartherThanIsDistanceAbove`.
- `Colors.DistanceSq`: states only that equal colours are at distance 0, not the converse.
- Week tokens are `(year, week)` pairs, not text. Parsing `YYYY-Www` and printing `%Y-%m-%d` are not modelled. Every selected variant and severity row must carry a token naming a week its ISO year has (year 1..9999, week 1..52 or 53): the preconditions `Plot.VariantWeeksValid` and `Plot.SeverityWeeksValid`. Text that `%G-W%V-%u` cannot match, such as week 00 or week 60, makes `to_datetime` raise. Week 53 of a 52-week year is not rejected by `to_datetime`: it is dated as week 1 of the next year, and the source fails only later, at `reindex` on duplicate dates, if that week is also reported. The model excludes such tokens so that distinct tokens get distinct Mondays. pandas timestamps span only 1677-09-21 to 2262-04-11, so tokens outside those years raise in the source while the model dates them.
- `Tables.SeverityPivot`: duplicate (date, indicator) pairs make `pivot` raise. The model requires unique pairs (`Tables.UniqueSeverityKeys`) instead of modelling the exception.
- Plotting a country whose severity table lacks one of the three indicator columns raises a `KeyError` at the bar calls, and a legend with no variant patches gets `ncol=0`. Both happen in the drawing code, which is not modelled.
- `pandas` sorting of mixed or non-ASCII labels beyond code-point order, and its NaN arithmetic beyond "missing cells are skipped by `max`", are not modelled.
