/** One recomputation of the chart for a chosen country: both tables are
    filtered and reshaped, cut at the epoch, the variant table is aligned
    onto the severity dates, one colour is chosen per variant, and the peak
    labels and the legend are decided. */
module Plot {
  import opened Wrappers
  import opened Ordering
  import opened IsoCalendar
  import opened Records
  import opened Tables
  import opened Colors
  import opened Render

  /** Everything the chart is drawn from. */
  datatype RenderPayload = RenderPayload(
    severity: Table<int, real>,
    variants: Table<int, Option<real>>,
    colors: seq<Color>,
    peaks: seq<PeakLabel>,
    legend: seq<Handle>,
    legendColumns: nat)

  /** Week tokens of the selected variant rows name real ISO weeks. */
  predicate VariantWeeksValid(rows: seq<VariantRecord>, country: string) {
    forall r :: r in rows && KeepVariant(r, country) ==> ValidYearWeek(r.yearweek)
  }

  /** The weekly variant table of one country, dated by week tokens. */
  function WeeklyVariants(rows: seq<VariantRecord>, country: string): Table<YearWeek, real> {
    VariantPivot(FilterVariants(rows, country))
  }

  /** The variant table of one country before alignment: the selected rows
      grouped and summed, pivoted, dated by their Mondays and cut at the
      epoch. Its dates ascend strictly. */
  function VariantSeries(rows: seq<VariantRecord>, country: string): (t: Table<int, real>)
    requires VariantWeeksValid(rows, country)
    ensures t.Shaped()
    ensures StrictlySorted(IntLess, t.index)
  {
    FilteredVariantMembers(rows, country);
    Truncate(ToMondays(WeeklyVariants(rows, country)), Epoch())
  }

  /** The dates of the variant table are exactly the Mondays, not before the
      epoch, of the weeks the selected rows report. */
  lemma VariantSeriesDates(rows: seq<VariantRecord>, country: string, d: int)
    requires VariantWeeksValid(rows, country)
    ensures d in VariantSeries(rows, country).index <==>
      d >= Epoch() && exists r :: r in rows && KeepVariant(r, country) && MondayOf(r.yearweek) == d
  {
    var sel := FilterVariants(rows, country);
    var pivot := VariantPivot(sel);
    var dated := ToMondays(pivot);
    PivotWeeksValid(rows, country);
    assert StrictlySorted(IntLess, dated.index);
    assert VariantSeries(rows, country).index == AtOrAfter(dated.index, Epoch());
    MondaysOfMembers(pivot.index, dated.index, d);
    WeeksOfMembers(sel, pivot.index, d);
    SelectedMondays(rows, country, d);
  }

  /** The weeks of the weekly table are weeks of selected rows, so real ISO weeks. */
  lemma PivotWeeksValid(rows: seq<VariantRecord>, country: string)
    requires VariantWeeksValid(rows, country)
    ensures forall w :: w in WeeklyVariants(rows, country).index ==> ValidYearWeek(w)
  {
    FilteredVariantMembers(rows, country);
  }

  /** A Monday of a selected row is the Monday of a row the filter keeps. */
  lemma SelectedMondays(rows: seq<VariantRecord>, country: string, d: int)
    ensures (exists r :: r in FilterVariants(rows, country) && MondayOf(r.yearweek) == d) <==>
      exists r :: r in rows && KeepVariant(r, country) && MondayOf(r.yearweek) == d
  {
    FilteredVariantMembers(rows, country);
    if exists r :: r in rows && KeepVariant(r, country) && MondayOf(r.yearweek) == d {
      var r :| r in rows && KeepVariant(r, country) && MondayOf(r.yearweek) == d;
      assert r in FilterVariants(rows, country);
    }
  }

  /** A date is among the Mondays of some weeks exactly when it is the
      Monday of one of them. */
  lemma MondaysOfMembers(weeks: seq<YearWeek>, dates: seq<int>, d: int)
    requires |dates| == |weeks| && forall i :: 0 <= i < |weeks| ==> dates[i] == MondayOf(weeks[i])
    ensures d in dates <==> exists w :: w in weeks && MondayOf(w) == d
  {
    if d in dates {
      var i :| 0 <= i < |dates| && dates[i] == d;
      assert weeks[i] in weeks;
    }
    if exists w :: w in weeks && MondayOf(w) == d {
      var w :| w in weeks && MondayOf(w) == d;
      var i :| 0 <= i < |weeks| && weeks[i] == w;
      assert dates[i] == d;
    }
  }

  /** When `weeks` are the weeks the rows name, a Monday of one of them is
      the Monday of some row's week. */
  lemma WeeksOfMembers(sel: seq<VariantRecord>, weeks: seq<YearWeek>, d: int)
    requires forall w :: w in weeks <==> exists r :: r in sel && r.yearweek == w
    ensures (exists w :: w in weeks && MondayOf(w) == d) <==> exists r :: r in sel && MondayOf(r.yearweek) == d
  {
    if exists w :: w in weeks && MondayOf(w) == d {
      var w :| w in weeks && MondayOf(w) == d;
      var r :| r in sel && r.yearweek == w;
      assert MondayOf(r.yearweek) == d;
    }
    if exists r :: r in sel && MondayOf(r.yearweek) == d {
      var r :| r in sel && MondayOf(r.yearweek) == d;
      assert r.yearweek in weeks;
    }
  }

  /** The variant columns are every variant the selected rows name, including
      variants reported only before the epoch. */
  lemma VariantSeriesColumns(rows: seq<VariantRecord>, country: string, v: string)
    requires VariantWeeksValid(rows, country)
    ensures v in VariantSeries(rows, country).columns <==>
      exists r :: r in rows && KeepVariant(r, country) && r.variant == v
  {
    FilteredVariantMembers(rows, country);
  }

  /** Each cell of the variant table is the sum of the selected rows of one
      week and variant: the week whose Monday dates the row. */
  lemma VariantSeriesCells(rows: seq<VariantRecord>, country: string, i: int, j: int)
    requires VariantWeeksValid(rows, country)
    requires 0 <= i < |VariantSeries(rows, country).index|
    requires 0 <= j < |VariantSeries(rows, country).columns|
    ensures exists w :: && ValidYearWeek(w)
                        && MondayOf(w) == VariantSeries(rows, country).index[i]
                        && VariantSeries(rows, country).cells[i][j]
                           == SumOf(FilterVariants(rows, country), (w, VariantSeries(rows, country).columns[j]))
  {
    FilteredVariantMembers(rows, country);
    var sel := FilterVariants(rows, country);
    var pivot := VariantPivot(sel);
    var dated := ToMondays(pivot);
    TruncatedRowOrigin(dated, Epoch(), i);
    var k :| && 0 <= k < |dated.index|
             && VariantSeries(rows, country).index[i] == dated.index[k]
             && VariantSeries(rows, country).cells[i] == dated.cells[k];
    var w := pivot.index[k];
    assert w in pivot.index;
    var r :| r in sel && r.yearweek == w;
    assert ValidYearWeek(w);
  }

  /** Week tokens of the selected severity rows name real ISO weeks. */
  predicate SeverityWeeksValid(rows: seq<SeverityRecord>, country: string) {
    forall r :: r in rows && KeepSeverity(r, country) ==> ValidYearWeek(r.yearweek)
  }

  /** The severity table of one country: the selected rows pivoted and cut at
      the epoch. Its dates ascend strictly. */
  function SeveritySeries(rows: seq<SeverityRecord>, country: string): (t: Table<int, real>)
    requires SeverityWeeksValid(rows, country)
    requires UniqueSeverityKeys(FilterSeverity(rows, country))
    ensures t.Shaped()
    ensures StrictlySorted(IntLess, t.index)
  {
    FilteredSeverityMembers(rows, country);
    Truncate(SeverityPivot(FilterSeverity(rows, country)), Epoch())
  }

  /** The severity dates are exactly the dates, not before the epoch, of the
      selected rows, and the columns the indicators they report. */
  lemma SeveritySeriesAxes(rows: seq<SeverityRecord>, country: string, d: int, n: string)
    requires SeverityWeeksValid(rows, country)
    requires UniqueSeverityKeys(FilterSeverity(rows, country))
    ensures d in SeveritySeries(rows, country).index <==>
      d >= Epoch() && exists r :: r in rows && KeepSeverity(r, country) && DateOf(r) == d
    ensures n in SeveritySeries(rows, country).columns <==>
      exists r :: r in rows && KeepSeverity(r, country) && r.indicator == n
  {
    FilteredSeverityMembers(rows, country);
  }

  /** `update_plot_with_country(country)` up to the drawing calls. The
      variant table ends up on the severity table's dates exactly, with the
      variant columns unchanged; there is one colour per variant column, and
      the peak labels and legend follow the column order. The only failure
      is running out of candidate colours. */
  method UpdatePlotWithCountry(
    variantRows: seq<VariantRecord>, severityRows: seq<SeverityRecord>,
    country: string, candidates: seq<Color>)
    returns (result: Result<RenderPayload, ColorError>)
    requires VariantWeeksValid(variantRows, country)
    requires SeverityWeeksValid(severityRows, country)
    requires UniqueSeverityKeys(FilterSeverity(severityRows, country))
    ensures result.Failure? <==>
      Generated(|VariantSeries(variantRows, country).columns|, DefaultMinDistance, candidates).Failure?
    ensures result.Success? ==> result.value.severity == SeveritySeries(severityRows, country)
    ensures result.Success? ==>
      result.value.variants == Reindex(VariantSeries(variantRows, country), result.value.severity.index)
    ensures result.Success? ==> result.value.variants.index == result.value.severity.index
    ensures result.Success? ==> result.value.variants.columns == VariantSeries(variantRows, country).columns
    ensures result.Success? ==>
      result.value.colors == Generated(|result.value.variants.columns|, DefaultMinDistance, candidates).value
    ensures result.Success? ==> |result.value.colors| == |result.value.variants.columns|
    ensures result.Success? ==>
      result.value.peaks == Labels(result.value.variants, result.value.colors, |result.value.variants.columns|)
    ensures result.Success? ==>
      && |result.value.legend| == |SeverityHandles| + |result.value.variants.columns|
      && result.value.legend[..|SeverityHandles|] == SeverityHandles
    ensures result.Success? ==>
      forall i :: 0 <= i < |result.value.variants.columns| ==>
        result.value.legend[|SeverityHandles| + i]
        == VariantPatch(result.value.variants.columns[i], result.value.colors[i])
    ensures result.Success? ==>
      result.value.legendColumns == Min(MaxLegendColumns, |result.value.variants.columns|)
  {
    var variants := VariantSeries(variantRows, country);
    var colors := RandomColorGenerator(|variants.columns|, DefaultMinDistance, candidates);
    if colors.Failure? {
      return Failure(colors.error);
    }
    var severity := SeveritySeries(severityRows, country);
    IntLessIsStrictTotalOrder();
    SortedIsDistinct(IntLess, variants.index);
    var aligned := Reindex(variants, severity.index);
    var peaks := AnnotatePeaks(aligned, colors.value);
    var legend, ncol := BuildLegend(aligned.columns, colors.value);
    result := Success(RenderPayload(severity, aligned, colors.value, peaks, legend, ncol));
  }

  /** A sequence without members is empty. */
  lemma NoMembersMeansEmpty<T>(s: seq<T>)
    requires forall x :: x !in s
    ensures s == []
  {
    forall x ensures multiset(s)[x] == 0 {
      assert x !in s;
    }
    assert multiset(s) == multiset{};
    assert |s| == |multiset(s)|;
  }

  /** A country with no selected variant rows gives an empty variant table. */
  lemma UnknownCountryGivesNoVariants(rows: seq<VariantRecord>, country: string)
    requires forall r :: r in rows ==> !KeepVariant(r, country)
    ensures VariantWeeksValid(rows, country)
    ensures VariantSeries(rows, country).index == []
    ensures VariantSeries(rows, country).columns == []
  {
    var v := VariantSeries(rows, country);
    forall d ensures d !in v.index {
      VariantSeriesDates(rows, country, d);
    }
    forall n ensures n !in v.columns {
      VariantSeriesColumns(rows, country, n);
    }
    NoMembersMeansEmpty(v.index);
    NoMembersMeansEmpty(v.columns);
  }

  /** A country with no selected severity rows gives an empty severity table. */
  lemma UnknownCountryGivesNoSeverity(rows: seq<SeverityRecord>, country: string)
    requires forall r :: r in rows ==> !KeepSeverity(r, country)
    ensures SeverityWeeksValid(rows, country)
    ensures UniqueSeverityKeys(FilterSeverity(rows, country))
    ensures SeveritySeries(rows, country).index == []
    ensures SeveritySeries(rows, country).columns == []
  {
    FilteredSeverityMembers(rows, country);
    NoMembersMeansEmpty(FilterSeverity(rows, country));
    var s := SeveritySeries(rows, country);
    forall d ensures d !in s.index {
      SeveritySeriesAxes(rows, country, d, "");
    }
    forall n ensures n !in s.columns {
      SeveritySeriesAxes(rows, country, 0, n);
    }
    NoMembersMeansEmpty(s.index);
    NoMembersMeansEmpty(s.columns);
  }
}
