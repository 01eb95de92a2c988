/** The two decisions the chart makes from the aligned data: which variant
    lines get a text label at their peak, and how the legend is laid out. */
module Render {
  import opened Wrappers
  import opened Ordering
  import opened Tables
  import opened Colors

  /** A variant line is labelled when its highest share exceeds 40 (%). */
  const PeakThreshold: real := 40.0

  /** The legend never has more than nine columns. */
  const MaxLegendColumns: nat := 9

  function Min(a: int, b: int): int {
    if a <= b then a else b
  }

  /** The cells of column `j`, in index order. */
  function Column<V>(t: Table<int, V>, j: int): (col: seq<V>)
    requires t.Shaped() && 0 <= j < |t.columns|
    ensures |col| == |t.index|
    ensures forall i :: 0 <= i < |col| ==> col[i] == t.cells[i][j]
  {
    seq(|t.index|, i requires 0 <= i < |t.index| => t.cells[i][j])
  }

  /** `Series.max()`, which skips missing cells: the largest present value,
      or nothing when every cell is missing. */
  function PresentMax(col: seq<Option<real>>): Option<real> {
    MaxOfFirst(col, |col|)
  }

  /** The largest present value among the first `n` cells. */
  function MaxOfFirst(col: seq<Option<real>>, n: nat): Option<real>
    requires n <= |col|
  {
    if n == 0 then None
    else
      var rest := MaxOfFirst(col, n - 1);
      match col[n - 1]
      case None => rest
      case Some(v) => if rest.Some? && rest.value > v then rest else Some(v)
  }

  /** `PresentMax` is nothing exactly when every cell is missing, and
      otherwise a present value no smaller than any other. */
  lemma PresentMaxIsMaximum(col: seq<Option<real>>)
    ensures PresentMax(col).None? <==> forall i :: 0 <= i < |col| ==> col[i].None?
    ensures PresentMax(col).Some? ==> Some(PresentMax(col).value) in col
    ensures PresentMax(col).Some? ==>
      forall i :: 0 <= i < |col| && col[i].Some? ==> col[i].value <= PresentMax(col).value
  {
    MaxOfFirstIsMaximum(col, |col|);
  }

  lemma {:induction false} MaxOfFirstIsMaximum(col: seq<Option<real>>, n: nat)
    requires n <= |col|
    ensures MaxOfFirst(col, n).None? <==> forall i :: 0 <= i < n ==> col[i].None?
    ensures MaxOfFirst(col, n).Some? ==> exists i :: 0 <= i < n && col[i] == Some(MaxOfFirst(col, n).value)
    ensures MaxOfFirst(col, n).Some? ==>
      forall i :: 0 <= i < n && col[i].Some? ==> col[i].value <= MaxOfFirst(col, n).value
  {
    if n > 0 {
      MaxOfFirstIsMaximum(col, n - 1);
    }
  }

  /** The first position holding `Some(v)`, or `|col|` when there is none. */
  function FirstIndexOf(col: seq<Option<real>>, v: real): nat {
    FirstIndexFrom(col, v, 0)
  }

  /** The first position at or after `from` holding `Some(v)`, or `|col|`. */
  function FirstIndexFrom(col: seq<Option<real>>, v: real, from: nat): nat
    decreases |col| - from
  {
    if from >= |col| then |col|
    else if col[from] == Some(v) then from
    else FirstIndexFrom(col, v, from + 1)
  }

  /** When `Some(v)` occurs in `col`, `FirstIndexOf` is its first position. */
  lemma FirstIndexOfIsFirst(col: seq<Option<real>>, v: real)
    requires Some(v) in col
    ensures FirstIndexOf(col, v) < |col| && col[FirstIndexOf(col, v)] == Some(v)
    ensures forall i :: 0 <= i < FirstIndexOf(col, v) ==> col[i] != Some(v)
  {
    var i :| 0 <= i < |col| && col[i] == Some(v);
    FirstIndexFromIsFirst(col, v, 0, i);
  }

  lemma {:induction false} FirstIndexFromIsFirst(col: seq<Option<real>>, v: real, from: nat, i: nat)
    requires from <= i < |col| && col[i] == Some(v)
    ensures from <= FirstIndexFrom(col, v, from) <= i && col[FirstIndexFrom(col, v, from)] == Some(v)
    ensures forall m :: from <= m < FirstIndexFrom(col, v, from) ==> col[m] != Some(v)
    decreases |col| - from
  {
    if col[from] != Some(v) {
      FirstIndexFromIsFirst(col, v, from + 1, i);
    }
  }

  datatype Peak = Peak(date: int, value: real)

  /** Where a variant line gets its label: at the first date on which it
      reaches its maximum, when that maximum is over the threshold. */
  function PeakOf(index: seq<int>, col: seq<Option<real>>): Option<Peak>
    requires |index| == |col|
  {
    var m := PresentMax(col);
    if m.Some? && m.value > PeakThreshold then
      PresentMaxIsMaximum(col);
      FirstIndexOfIsFirst(col, m.value);
      var k := FirstIndexOf(col, m.value);
      Some(Peak(index[k], m.value))
    else
      None
  }

  /** A line has a peak exactly when some present value exceeds the
      threshold; the peak's value is then the line's maximum, and its date
      is the first one holding that maximum. */
  lemma PeakOfIsFirstMaximum(index: seq<int>, col: seq<Option<real>>)
    requires |index| == |col|
    ensures PeakOf(index, col).Some? <==> exists i :: 0 <= i < |col| && col[i].Some? && col[i].value > PeakThreshold
    ensures PeakOf(index, col).Some? ==> PeakOf(index, col).value.value > PeakThreshold
    ensures PeakOf(index, col).Some? ==> exists k ::
      && 0 <= k < |col| && index[k] == PeakOf(index, col).value.date && col[k] == Some(PeakOf(index, col).value.value)
      && (forall i :: 0 <= i < k ==> col[i] != Some(PeakOf(index, col).value.value))
      && (forall i :: 0 <= i < |col| && col[i].Some? ==> col[i].value <= PeakOf(index, col).value.value)
  {
    PresentMaxIsMaximum(col);
    var m := PresentMax(col);
    if m.Some? {
      FirstIndexOfIsFirst(col, m.value);
    }
  }

  /** The text label placed on a variant line. */
  datatype PeakLabel = PeakLabel(variant: string, color: Color, date: int, value: real)

  /** The label of one variant line: none without a peak. */
  function LabelAt(variant: string, color: Color, peak: Option<Peak>): seq<PeakLabel> {
    match peak
    case None => []
    case Some(p) => [PeakLabel(variant, color, p.date, p.value)]
  }

  /** The label of variant line `j` of the table, drawn in `colors[j]`. */
  function LineLabel(t: Table<int, Option<real>>, colors: seq<Color>, j: int): seq<PeakLabel>
    requires t.Shaped() && |colors| >= |t.columns| && 0 <= j < |t.columns|
  {
    LabelAt(t.columns[j], colors[j], PeakOf(t.index, Column(t, j)))
  }

  /** In the table's terms: line `j` is labelled exactly when one of its
      present cells exceeds the threshold, and then by one label naming the
      variant in its colour, placed at the first date holding the line's
      maximum, with that maximum as its value. */
  lemma LineLabelAtPeak(t: Table<int, Option<real>>, colors: seq<Color>, j: int)
    requires t.Shaped() && |colors| >= |t.columns| && 0 <= j < |t.columns|
    ensures |LineLabel(t, colors, j)| <= 1
    ensures LineLabel(t, colors, j) != [] <==>
      exists i :: 0 <= i < |t.index| && t.cells[i][j].Some? && t.cells[i][j].value > PeakThreshold
    ensures forall l :: l in LineLabel(t, colors, j) ==>
      && l.variant == t.columns[j] && l.color == colors[j] && l.value > PeakThreshold
      && exists k ::
        && 0 <= k < |t.index| && t.index[k] == l.date && t.cells[k][j] == Some(l.value)
        && (forall i :: 0 <= i < k ==> t.cells[i][j] != Some(l.value))
        && (forall i :: 0 <= i < |t.index| && t.cells[i][j].Some? ==> t.cells[i][j].value <= l.value)
  {
    var col := Column(t, j);
    PeakOfIsFirstMaximum(t.index, col);
    if PeakOf(t.index, col).Some? {
      var p := PeakOf(t.index, col).value;
      assert LineLabel(t, colors, j) == [PeakLabel(t.columns[j], colors[j], p.date, p.value)];
    } else {
      assert LineLabel(t, colors, j) == [];
      assert forall i :: 0 <= i < |t.index| ==> t.cells[i][j] == col[i];
    }
  }

  /** The labels of the first `n` variant lines of the table, in column order. */
  function Labels(t: Table<int, Option<real>>, colors: seq<Color>, n: nat): seq<PeakLabel>
    requires t.Shaped() && |colors| >= |t.columns| && n <= |t.columns|
  {
    if n == 0 then [] else Labels(t, colors, n - 1) + LineLabel(t, colors, n - 1)
  }

  /** With distinct variant names, the labels among the first `n` lines that
      name the variant of line `j` are exactly that line's own label, and
      none when `j` is not among them. */
  lemma {:induction false} LabelsAtPeaks(t: Table<int, Option<real>>, colors: seq<Color>, n: nat, j: int)
    requires t.Shaped() && |colors| >= |t.columns| && n <= |t.columns| && Distinct(t.columns)
    requires 0 <= j < |t.columns|
    ensures forall l :: l in Labels(t, colors, n) && l.variant == t.columns[j] <==>
      j < n && l in LineLabel(t, colors, j)
  {
    if n > 0 {
      LabelsAtPeaks(t, colors, n - 1, j);
      LineLabelNames(t, colors, n - 1);
      var prev, here := Labels(t, colors, n - 1), LineLabel(t, colors, n - 1);
      assert Labels(t, colors, n) == prev + here;
      if j != n - 1 {
        assert t.columns[n - 1] != t.columns[j];
      }
    }
  }

  /** Every label of line `j` names that line's variant. */
  lemma LineLabelNames(t: Table<int, Option<real>>, colors: seq<Color>, j: int)
    requires t.Shaped() && |colors| >= |t.columns| && 0 <= j < |t.columns|
    ensures forall l :: l in LineLabel(t, colors, j) ==> l.variant == t.columns[j]
  {
  }

  /** The plotting loop's labelling: for each variant column in order, a
      label at the line's peak when its maximum exceeds the threshold. */
  method AnnotatePeaks(t: Table<int, Option<real>>, colors: seq<Color>) returns (labels: seq<PeakLabel>)
    requires t.Shaped() && |colors| >= |t.columns|
    ensures labels == Labels(t, colors, |t.columns|)
  {
    labels := [];
    for j := 0 to |t.columns|
      invariant labels == Labels(t, colors, j)
    {
      var here := AnnotateLine(t, colors, j);
      labels := labels + here;
    }
  }

  /** One pass of the plotting loop: the line's maximum, skipping missing
      cells, and when it exceeds the threshold a label at the first date
      holding it. The result is the label of that column: at most one,
      present exactly when a present cell exceeds the threshold, naming the
      variant in its colour at the first date of the line's maximum. */
  method AnnotateLine(t: Table<int, Option<real>>, colors: seq<Color>, j: int) returns (here: seq<PeakLabel>)
    requires t.Shaped() && |colors| >= |t.columns| && 0 <= j < |t.columns|
    ensures here == LineLabel(t, colors, j)
    ensures |here| <= 1
    ensures here != [] <==>
      exists i :: 0 <= i < |t.index| && t.cells[i][j].Some? && t.cells[i][j].value > PeakThreshold
    ensures forall l :: l in here ==>
      && l.variant == t.columns[j] && l.color == colors[j] && l.value > PeakThreshold
      && exists k ::
        && 0 <= k < |t.index| && t.index[k] == l.date && t.cells[k][j] == Some(l.value)
        && (forall i :: 0 <= i < k ==> t.cells[i][j] != Some(l.value))
        && (forall i :: 0 <= i < |t.index| && t.cells[i][j].Some? ==> t.cells[i][j].value <= l.value)
  {
    var col := Column(t, j);
    var maxValue := PresentMax(col);
    here := [];
    if maxValue.Some? && maxValue.value > PeakThreshold {
      PresentMaxIsMaximum(col);
      FirstIndexOfIsFirst(col, maxValue.value);
      var k := FirstIndexOf(col, maxValue.value);
      here := [PeakLabel(t.columns[j], colors[j], t.index[k], maxValue.value)];
    }
    LineLabelAtPeak(t, colors, j);
  }

  /** A legend entry: one of the three severity bars, or a variant's patch. */
  datatype Handle = SeverityBar(name: string) | VariantPatch(variant: string, color: Color)

  const SeverityHandles: seq<Handle> :=
    [SeverityBar("Hosp. Admissions"), SeverityBar("ICU"), SeverityBar("Deaths")]

  /** The legend: the three severity bars, then one patch per variant paired
      with its colour in column order, laid out in as many columns as there
      are patches, at most nine. */
  method BuildLegend(columns: seq<string>, colors: seq<Color>) returns (handles: seq<Handle>, ncol: nat)
    ensures |handles| == |SeverityHandles| + Min(|columns|, |colors|)
    ensures handles[..|SeverityHandles|] == SeverityHandles
    ensures forall i :: 0 <= i < Min(|columns|, |colors|) ==>
      handles[|SeverityHandles| + i] == VariantPatch(columns[i], colors[i])
    ensures forall i, j :: 0 <= i < j < |handles| && handles[j].SeverityBar? ==> handles[i].SeverityBar?
    ensures ncol == Min(MaxLegendColumns, Min(|columns|, |colors|))
  {
    var patches: seq<Handle> := [];
    var n := Min(|columns|, |colors|);
    for i := 0 to n
      invariant |patches| == i
      invariant forall k :: 0 <= k < i ==> patches[k] == VariantPatch(columns[k], colors[k])
    {
      patches := patches + [VariantPatch(columns[i], colors[i])];
    }
    handles := SeverityHandles + patches;
    assert handles[..|SeverityHandles|] == SeverityHandles;
    forall k | 0 <= k < |handles|
      ensures handles[k].SeverityBar? <==> k < |SeverityHandles|
    {
      if k < |SeverityHandles| {
        assert handles[k] == SeverityHandles[k];
      } else {
        assert handles[k] == patches[k - |SeverityHandles|];
      }
    }
    ncol := Min(MaxLegendColumns, |patches|);
  }
}
