/** The reshaping pipeline: variant rows grouped by (week, variant) and
    summed, then pivoted into a week-by-variant table with empty cells set to
    0; severity rows pivoted into a date-by-indicator table; week tokens
    turned into the dates of their Mondays; both tables cut at the epoch
    2020-08-20; the variant table reindexed onto the severity dates. */
module Tables {
  import opened Wrappers
  import opened Ordering
  import opened IsoCalendar
  import opened Records

  /** A wide table: row labels, column names, and for each label one row of
      cells, one cell per column. */
  datatype Table<K, V> = Table(index: seq<K>, columns: seq<string>, cells: seq<seq<V>>) {
    predicate Shaped() {
      |cells| == |index| && forall i :: 0 <= i < |cells| ==> |cells[i]| == |columns|
    }
  }

  /** The first week with reliable combined data; both tables start here. */
  const EpochDate: Date := Date(2020, 8, 20)

  function Epoch(): int {
    Ordinal(EpochDate)
  }

  // ---------------------------------------------------------------------
  // Variant table: group, sum, pivot, fill with 0

  type GroupKey = (YearWeek, string)

  function KeyOf(r: VariantRecord): GroupKey {
    (r.yearweek, r.variant)
  }

  /** The sum of the values of the rows with key `k`; 0 when there are none. */
  function SumOf(rows: seq<VariantRecord>, k: GroupKey): real {
    if rows == [] then 0.0
    else (if KeyOf(rows[0]) == k then rows[0].value else 0.0) + SumOf(rows[1..], k)
  }

  lemma {:induction false} SumOfAppend(rows: seq<VariantRecord>, r: VariantRecord, k: GroupKey)
    ensures SumOf(rows + [r], k) == SumOf(rows, k) + (if KeyOf(r) == k then r.value else 0.0)
  {
    if rows != [] {
      assert (rows + [r])[1..] == rows[1..] + [r];
      SumOfAppend(rows[1..], r, k);
    }
  }

  /** A (week, variant) pair no row carries sums to exactly 0. */
  lemma {:induction false} SumOfAbsent(rows: seq<VariantRecord>, k: GroupKey)
    requires forall r :: r in rows ==> KeyOf(r) != k
    ensures SumOf(rows, k) == 0.0
  {
    if rows != [] {
      assert rows[0] in rows;
      SumOfAbsent(rows[1..], k);
    }
  }

  /** `groupby(['yearweek', 'variant']).agg({'value': 'sum'})`: the rows are
      scanned in order and each one's value is added to the entry of its key. */
  function GroupSum(rows: seq<VariantRecord>): (groups: map<GroupKey, real>)
    ensures forall k :: k in groups <==> exists r :: r in rows && KeyOf(r) == k
    ensures forall k :: k in groups ==> groups[k] == SumOf(rows, k)
  {
    if rows == [] then map[]
    else
      var front, last := rows[..|rows| - 1], rows[|rows| - 1];
      assert rows == front + [last];
      var groups := GroupSum(front);
      var k := KeyOf(last);
      var updated := groups[k := (if k in groups then groups[k] else 0.0) + last.value];
      assert forall k' :: k' in updated ==> updated[k'] == SumOf(rows, k') by {
        forall k' | k' in updated ensures updated[k'] == SumOf(rows, k') {
          SumOfAppend(front, last, k');
          if k' == k && k !in groups {
            SumOfAbsent(front, k);
          }
        }
      }
      updated
  }

  function YearWeeksOf(rows: seq<VariantRecord>): (ws: seq<YearWeek>)
    ensures forall w :: w in ws <==> exists r :: r in rows && r.yearweek == w
  {
    var ws := seq(|rows|, i requires 0 <= i < |rows| => rows[i].yearweek);
    assert forall r :: r in rows ==> r.yearweek in ws by {
      forall r | r in rows ensures r.yearweek in ws {
        var i :| 0 <= i < |rows| && rows[i] == r;
        assert ws[i] == r.yearweek;
      }
    }
    ws
  }

  function VariantsOf(rows: seq<VariantRecord>): (vs: seq<string>)
    ensures forall v :: v in vs <==> exists r :: r in rows && r.variant == v
  {
    var vs := seq(|rows|, i requires 0 <= i < |rows| => rows[i].variant);
    assert forall r :: r in rows ==> r.variant in vs by {
      forall r | r in rows ensures r.variant in vs {
        var i :| 0 <= i < |rows| && rows[i] == r;
        assert vs[i] == r.variant;
      }
    }
    vs
  }

  /** `pivot(index='yearweek', columns='variant', values='value').fillna(0)`
      over the grouped sums: one row per week and one column per variant that
      occurs, both in ascending order, and in each cell the sum of the values
      of that week and variant, 0 where the pair never occurs. */
  function VariantPivot(rows: seq<VariantRecord>): (t: Table<YearWeek, real>)
    ensures t.Shaped()
    ensures StrictlySorted(YearWeekLess, t.index)
    ensures forall w :: w in t.index <==> exists r :: r in rows && r.yearweek == w
    ensures StrictlySorted(StrLess, t.columns)
    ensures forall v :: v in t.columns <==> exists r :: r in rows && r.variant == v
    ensures forall i, j :: 0 <= i < |t.index| && 0 <= j < |t.columns| ==>
      t.cells[i][j] == SumOf(rows, (t.index[i], t.columns[j]))
  {
    YearWeekLessIsStrictTotalOrder();
    StrLessIsStrictTotalOrder();
    var groups := GroupSum(rows);
    var weeks := SortedUnique(YearWeekLess, YearWeeksOf(rows));
    var names := SortedUnique(StrLess, VariantsOf(rows));
    var cells := seq(|weeks|, i requires 0 <= i < |weeks| =>
      seq(|names|, j requires 0 <= j < |names| =>
        var k := (weeks[i], names[j]);
        if k in groups then groups[k] else 0.0));
    assert forall i, j :: 0 <= i < |weeks| && 0 <= j < |names| ==>
      cells[i][j] == SumOf(rows, (weeks[i], names[j])) by {
      forall i, j | 0 <= i < |weeks| && 0 <= j < |names|
        ensures cells[i][j] == SumOf(rows, (weeks[i], names[j]))
      {
        if (weeks[i], names[j]) !in groups {
          SumOfAbsent(rows, (weeks[i], names[j]));
        }
      }
    }
    Table(weeks, names, cells)
  }

  /** Zero fill: a week and variant with no row between them give a cell of
      exactly 0. */
  lemma ZeroFill(rows: seq<VariantRecord>, i: int, j: int)
    requires 0 <= i < |VariantPivot(rows).index| && 0 <= j < |VariantPivot(rows).columns|
    requires forall r :: r in rows ==>
      r.yearweek != VariantPivot(rows).index[i] || r.variant != VariantPivot(rows).columns[j]
    ensures VariantPivot(rows).cells[i][j] == 0.0
  {
    var t := VariantPivot(rows);
    SumOfAbsent(rows, (t.index[i], t.columns[j]));
  }

  /** Replaces each week token of the index by the date of its Monday. Valid
      tokens in ascending order give strictly ascending dates. */
  function ToMondays(t: Table<YearWeek, real>): (u: Table<int, real>)
    ensures u.columns == t.columns && u.cells == t.cells && |u.index| == |t.index|
    ensures forall i :: 0 <= i < |t.index| ==> u.index[i] == MondayOf(t.index[i])
    ensures (forall w :: w in t.index ==> ValidYearWeek(w)) && StrictlySorted(YearWeekLess, t.index) ==>
      StrictlySorted(IntLess, u.index)
  {
    var dates := seq(|t.index|, i requires 0 <= i < |t.index| => MondayOf(t.index[i]));
    MondaysAscend(t.index, dates);
    Table(dates, t.columns, t.cells)
  }

  lemma MondaysAscend(weeks: seq<YearWeek>, dates: seq<int>)
    requires |dates| == |weeks| && forall i :: 0 <= i < |weeks| ==> dates[i] == MondayOf(weeks[i])
    ensures (forall w :: w in weeks ==> ValidYearWeek(w)) && StrictlySorted(YearWeekLess, weeks) ==>
      StrictlySorted(IntLess, dates)
  {
    if (forall w :: w in weeks ==> ValidYearWeek(w)) && StrictlySorted(YearWeekLess, weeks) {
      forall i, j | 0 <= i < j < |dates| ensures IntLess(dates[i], dates[j]) {
        MondayOfIncreasing(weeks[i], weeks[j]);
      }
    }
  }

  // ---------------------------------------------------------------------
  // Severity table: pivot without aggregation, fill with 0

  function DateOf(r: SeverityRecord): int {
    MondayOf(r.yearweek)
  }

  /** No two severity rows share a date and an indicator; `pivot` raises
      otherwise. */
  predicate UniqueSeverityKeys(rows: seq<SeverityRecord>) {
    forall i, j :: 0 <= i < j < |rows| ==>
      DateOf(rows[i]) != DateOf(rows[j]) || rows[i].indicator != rows[j].indicator
  }

  /** The value of the first row with date `d` and indicator `ind`. */
  function SeverityValue(rows: seq<SeverityRecord>, d: int, ind: string): (v: Option<real>)
    ensures v.None? <==> forall k :: 0 <= k < |rows| ==> DateOf(rows[k]) != d || rows[k].indicator != ind
    ensures v.Some? ==> exists k :: 0 <= k < |rows| && DateOf(rows[k]) == d && rows[k].indicator == ind && rows[k].value == v.value
  {
    if rows == [] then None
    else if DateOf(rows[0]) == d && rows[0].indicator == ind then Some(rows[0].value)
    else
      var v := SeverityValue(rows[1..], d, ind);
      assert forall k :: 1 <= k < |rows| ==> rows[k] == rows[1..][k - 1];
      v
  }

  function DatesOf(rows: seq<SeverityRecord>): (ds: seq<int>)
    ensures forall d :: d in ds <==> exists r :: r in rows && DateOf(r) == d
  {
    var ds := seq(|rows|, i requires 0 <= i < |rows| => DateOf(rows[i]));
    assert forall r :: r in rows ==> DateOf(r) in ds by {
      forall r | r in rows ensures DateOf(r) in ds {
        var i :| 0 <= i < |rows| && rows[i] == r;
        assert ds[i] == DateOf(r);
      }
    }
    ds
  }

  function IndicatorsOf(rows: seq<SeverityRecord>): (ns: seq<string>)
    ensures forall n :: n in ns <==> exists r :: r in rows && r.indicator == n
  {
    var ns := seq(|rows|, i requires 0 <= i < |rows| => rows[i].indicator);
    assert forall r :: r in rows ==> r.indicator in ns by {
      forall r | r in rows ensures r.indicator in ns {
        var i :| 0 <= i < |rows| && rows[i] == r;
        assert ns[i] == r.indicator;
      }
    }
    ns
  }

  /** `pivot(index='date', columns='indicator', values='value').fillna(0)`:
      one row per date and one column per indicator that occurs, both in
      ascending order; a cell holds the value of the one row with that date
      and indicator, or 0 when there is none. The pivot itself accepts any
      dates; the token check of the `to_datetime` conversion before it is
      `Plot.SeverityWeeksValid`. */
  function SeverityPivot(rows: seq<SeverityRecord>): (t: Table<int, real>)
    requires UniqueSeverityKeys(rows)
    ensures t.Shaped()
    ensures StrictlySorted(IntLess, t.index)
    ensures forall d :: d in t.index <==> exists r :: r in rows && DateOf(r) == d
    ensures StrictlySorted(StrLess, t.columns)
    ensures forall n :: n in t.columns <==> exists r :: r in rows && r.indicator == n
    ensures forall i, j, k |
        && 0 <= i < |t.index| && 0 <= j < |t.columns| && 0 <= k < |rows|
        && DateOf(rows[k]) == t.index[i] && rows[k].indicator == t.columns[j]
      :: t.cells[i][j] == rows[k].value
    ensures forall i, j |
        && 0 <= i < |t.index| && 0 <= j < |t.columns|
        && (forall k :: 0 <= k < |rows| ==> DateOf(rows[k]) != t.index[i] || rows[k].indicator != t.columns[j])
      :: t.cells[i][j] == 0.0
  {
    IntLessIsStrictTotalOrder();
    StrLessIsStrictTotalOrder();
    var dates := SortedUnique(IntLess, DatesOf(rows));
    var names := SortedUnique(StrLess, IndicatorsOf(rows));
    var cells := seq(|dates|, i requires 0 <= i < |dates| =>
      seq(|names|, j requires 0 <= j < |names| =>
        match SeverityValue(rows, dates[i], names[j])
        case Some(v) => v
        case None => 0.0));
    Table(dates, names, cells)
  }

  // ---------------------------------------------------------------------
  // Cutting at the epoch

  /** The first position whose date is not before `key` (`searchsorted`). */
  function LowerBound(index: seq<int>, key: int): (p: nat)
    ensures p <= |index|
    ensures forall i :: 0 <= i < p ==> index[i] < key
    ensures p < |index| ==> index[p] >= key
  {
    if index == [] || index[0] >= key then 0
    else 1 + LowerBound(index[1..], key)
  }

  /** The dates of `s` not before `key`, in their order: the reference
      meaning of cutting a date index at a label. */
  function AtOrAfter(s: seq<int>, key: int): (r: seq<int>)
    ensures forall d :: d in r <==> d in s && d >= key
  {
    if s == [] then []
    else (if s[0] >= key then [s[0]] else []) + AtOrAfter(s[1..], key)
  }

  lemma {:induction false} LowerBoundCutsSorted(s: seq<int>, key: int)
    ensures StrictlySorted(IntLess, s) ==> s[LowerBound(s, key)..] == AtOrAfter(s, key)
  {
    if s != [] && StrictlySorted(IntLess, s) {
      if s[0] >= key {
        assert forall i :: 0 <= i < |s| ==> s[i] >= key by {
          forall i | 0 < i < |s| ensures s[i] >= key {
            assert IntLess(s[0], s[i]);
          }
        }
        AllAtOrAfter(s, key);
      } else {
        LowerBoundCutsSorted(s[1..], key);
      }
    }
  }

  lemma {:induction false} AllAtOrAfter(s: seq<int>, key: int)
    requires forall i :: 0 <= i < |s| ==> s[i] >= key
    ensures AtOrAfter(s, key) == s
  {
    if s != [] {
      AllAtOrAfter(s[1..], key);
      assert s == [s[0]] + s[1..];
    }
  }

  /** `.loc['2020-08-20':]` on a table: the rows from the first one dated on
      or after the epoch to the end, each with its own cells. When the dates
      ascend, these are exactly the dates not before the epoch, in order. */
  function Truncate<V>(t: Table<int, V>, epoch: int): (u: Table<int, V>)
    requires t.Shaped()
    ensures u.Shaped() && u.columns == t.columns
    ensures exists p :: 0 <= p <= |t.index| && u.index == t.index[p..] && u.cells == t.cells[p..]
    ensures StrictlySorted(IntLess, t.index) ==> StrictlySorted(IntLess, u.index)
    ensures StrictlySorted(IntLess, t.index) ==> u.index == AtOrAfter(t.index, epoch)
  {
    var p := LowerBound(t.index, epoch);
    LowerBoundCutsSorted(t.index, epoch);
    Table(t.index[p..], t.columns, t.cells[p..])
  }

  /** Every row kept by the cut is a row of the original table, with its
      label and its cells. */
  lemma TruncatedRowOrigin<V>(t: Table<int, V>, epoch: int, i: int)
    requires t.Shaped()
    requires 0 <= i < |Truncate(t, epoch).index|
    ensures exists k :: && 0 <= k < |t.index|
                        && Truncate(t, epoch).index[i] == t.index[k]
                        && Truncate(t, epoch).cells[i] == t.cells[k]
  {
    var p := LowerBound(t.index, epoch);
    var u := Table(t.index[p..], t.columns, t.cells[p..]);
    assert Truncate(t, epoch) == u;
    assert u.index[i] == t.index[p + i] && u.cells[i] == t.cells[p + i];
  }

  // ---------------------------------------------------------------------
  // Reindexing the variants onto the severity dates

  function PositionOf(s: seq<int>, x: int): (p: nat)
    requires x in s
    ensures p < |s| && s[p] == x
    ensures forall i :: 0 <= i < p ==> s[i] != x
  {
    if s[0] == x then 0 else 1 + PositionOf(s[1..], x)
  }

  /** `variants.reindex(target)`: the rows follow `target` exactly; a date
      the table has brings its cells, a date it lacks gets a row of missing
      cells (NaN), and dates outside `target` are dropped. */
  function Reindex(t: Table<int, real>, target: seq<int>): (u: Table<int, Option<real>>)
    requires t.Shaped() && Distinct(t.index)
    ensures u.Shaped() && u.index == target && u.columns == t.columns
    ensures forall i, j, k |
        0 <= i < |target| && 0 <= j < |t.columns| && 0 <= k < |t.index| && t.index[k] == target[i]
      :: u.cells[i][j] == Some(t.cells[k][j])
    ensures forall i, j :: 0 <= i < |target| && 0 <= j < |t.columns| && target[i] !in t.index ==>
      u.cells[i][j] == None
  {
    var cells := seq(|target|, i requires 0 <= i < |target| =>
      if target[i] in t.index then
        var k := PositionOf(t.index, target[i]);
        seq(|t.columns|, j requires 0 <= j < |t.columns| => Some(t.cells[k][j]))
      else
        seq(|t.columns|, j requires 0 <= j < |t.columns| => None));
    Table(target, t.columns, cells)
  }
}
