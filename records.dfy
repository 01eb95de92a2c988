/** Rows of the two surveillance tables (the variants table and the
    non-sentinel severity table), the row filters that select one country,
    and the country catalogue offered to the user. Only the columns the
    program reads are kept. */
module Records {
  import opened Ordering
  import opened IsoCalendar

  const Pathogen: string := "SARS-CoV-2"
  const ProportionIndicator: string := "proportion"
  const TotalAge: string := "total"
  const SeverityIndicators: set<string> := {"hospitaladmissions", "ICUadmissions", "deaths"}

  /** A row of the variants table. */
  datatype VariantRecord = VariantRecord(
    countryname: string, pathogen: string, indicator: string,
    yearweek: YearWeek, variant: string, value: real)

  /** A row of the severity table. */
  datatype SeverityRecord = SeverityRecord(
    countryname: string, pathogen: string, indicator: string, age: string,
    yearweek: YearWeek, value: real)

  predicate KeepVariant(r: VariantRecord, country: string) {
    r.countryname == country && r.pathogen == Pathogen && r.indicator == ProportionIndicator
  }

  predicate KeepSeverity(r: SeverityRecord, country: string) {
    && r.countryname == country
    && r.pathogen == Pathogen
    && r.age == TotalAge
    && r.indicator in SeverityIndicators
  }

  /** The variant rows of one country: SARS-CoV-2 proportions. Every row that
      matches is kept as often as it occurs, every other row is dropped. */
  function FilterVariants(rows: seq<VariantRecord>, country: string): (r: seq<VariantRecord>)
    ensures forall x :: multiset(r)[x] == if KeepVariant(x, country) then multiset(rows)[x] else 0
  {
    if rows == [] then []
    else
      assert rows == [rows[0]] + rows[1..];
      (if KeepVariant(rows[0], country) then [rows[0]] else []) + FilterVariants(rows[1..], country)
  }

  /** The severity rows of one country: SARS-CoV-2, all ages together, and
      one of the three severity indicators. */
  function FilterSeverity(rows: seq<SeverityRecord>, country: string): (r: seq<SeverityRecord>)
    ensures forall x :: multiset(r)[x] == if KeepSeverity(x, country) then multiset(rows)[x] else 0
  {
    if rows == [] then []
    else
      assert rows == [rows[0]] + rows[1..];
      (if KeepSeverity(rows[0], country) then [rows[0]] else []) + FilterSeverity(rows[1..], country)
  }

  /** A row is among the selected variant rows exactly when it is one of the
      rows and passes the variant filter. */
  lemma FilteredVariantMembers(rows: seq<VariantRecord>, country: string)
    ensures forall x :: x in FilterVariants(rows, country) <==> x in rows && KeepVariant(x, country)
  {
    var sel := FilterVariants(rows, country);
    forall x ensures x in sel <==> x in rows && KeepVariant(x, country) {
      assert x in sel <==> multiset(sel)[x] > 0;
      assert x in rows <==> multiset(rows)[x] > 0;
    }
  }

  /** The same for the severity filter. */
  lemma FilteredSeverityMembers(rows: seq<SeverityRecord>, country: string)
    ensures forall x :: x in FilterSeverity(rows, country) <==> x in rows && KeepSeverity(x, country)
  {
    var sel := FilterSeverity(rows, country);
    forall x ensures x in sel <==> x in rows && KeepSeverity(x, country) {
      assert x in sel <==> multiset(sel)[x] > 0;
      assert x in rows <==> multiset(rows)[x] > 0;
    }
  }

  function VariantCountries(rows: seq<VariantRecord>): seq<string>
  {
    seq(|rows|, i requires 0 <= i < |rows| => rows[i].countryname)
  }

  function SeverityCountries(rows: seq<SeverityRecord>): seq<string>
  {
    seq(|rows|, i requires 0 <= i < |rows| => rows[i].countryname)
  }

  /** The countries a user can choose: every country name of either table,
      once each, in ascending order. */
  function GetAvailableCountries(variants: seq<VariantRecord>, severity: seq<SeverityRecord>): (countries: seq<string>)
    ensures StrictlySorted(StrLess, countries)
    ensures Distinct(countries)
    ensures forall c :: c in countries <==>
      (exists r :: r in variants && r.countryname == c) || (exists r :: r in severity && r.countryname == c)
  {
    StrLessIsStrictTotalOrder();
    var names := VariantCountries(variants) + SeverityCountries(severity);
    var countries := SortedUnique(StrLess, names);
    SortedIsDistinct(StrLess, countries);
    forall c ensures c in countries <==>
      (exists r :: r in variants && r.countryname == c) || (exists r :: r in severity && r.countryname == c)
    {
      if c in names {
        var i :| 0 <= i < |names| && names[i] == c;
        if i < |variants| {
          assert variants[i] in variants;
        } else {
          assert severity[i - |variants|] in severity;
        }
      }
      if exists r :: r in variants && r.countryname == c {
        var r :| r in variants && r.countryname == c;
        var i :| 0 <= i < |variants| && variants[i] == r;
        assert names[i] == c;
      }
      if exists r :: r in severity && r.countryname == c {
        var r :| r in severity && r.countryname == c;
        var i :| 0 <= i < |severity| && severity[i] == r;
        assert names[|variants| + i] == c;
      }
    }
    countries
  }
}
