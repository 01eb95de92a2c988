/** Calendar arithmetic behind the conversion of a "<G>-W<V>" year-week token
    to the date of the Monday of that week, following the ISO 8601 week date
    (ISO 8601:2004 section 4.1.4): weeks begin on Monday, and week 1 of ISO
    year G is the week holding 4 January of G.

    Dates are day ordinals of the proleptic Gregorian calendar in which
    0001-01-01 is day 1, the numbering Python's `date.toordinal` uses. */
module IsoCalendar {
  import opened Ordering

  /** The value of a "<G>-W<V>" token: ISO year G and week number V. */
  datatype YearWeek = YearWeek(year: int, week: int)

  /** A calendar date. Its "YYYY-MM-DD" text compares like the tuple. */
  datatype Date = Date(year: int, month: int, day: int)

  /** Canonical tokens ("2021-W05") compare as text exactly like the pairs. */
  predicate YearWeekLess(a: YearWeek, b: YearWeek) {
    a.year < b.year || (a.year == b.year && a.week < b.week)
  }

  predicate DateLess(a: Date, b: Date) {
    || a.year < b.year
    || (a.year == b.year && a.month < b.month)
    || (a.year == b.year && a.month == b.month && a.day < b.day)
  }

  lemma YearWeekLessIsStrictTotalOrder()
    ensures StrictTotalOrder(YearWeekLess)
  {
  }

  predicate IsLeap(y: int) {
    y % 4 == 0 && (y % 100 != 0 || y % 400 == 0)
  }

  function DaysInYear(y: int): int {
    if IsLeap(y) then 366 else 365
  }

  function DaysInMonth(y: int, m: int): int
    requires 1 <= m <= 12
  {
    if m == 2 then (if IsLeap(y) then 29 else 28)
    else if m == 4 || m == 6 || m == 9 || m == 11 then 30
    else 31
  }

  /** Days of the years 1 .. y-1. */
  function DaysBeforeYear(y: int): int {
    var p := y - 1;
    365 * p + p / 4 - p / 100 + p / 400
  }

  /** Days of the months 1 .. m-1 of year y. */
  function DaysBeforeMonth(y: int, m: int): int
    requires 1 <= m <= 12
  {
    if m == 1 then 0 else DaysBeforeMonth(y, m - 1) + DaysInMonth(y, m - 1)
  }

  /** A date Python's `datetime.date` accepts: a four-digit year, a month,
      and a day that month has. */
  predicate ValidDate(d: Date) {
    1 <= d.year <= 9999 && 1 <= d.month <= 12 && 1 <= d.day <= DaysInMonth(d.year, d.month)
  }

  function Ordinal(d: Date): int
    requires 1 <= d.month <= 12
  {
    DaysBeforeYear(d.year) + DaysBeforeMonth(d.year, d.month) + d.day
  }

  /** ISO day of the week, 1 = Monday .. 7 = Sunday; 0001-01-01 was a Monday. */
  function IsoWeekday(n: int): (w: int)
    ensures 1 <= w <= 7
  {
    (n - 1) % 7 + 1
  }

  function Jan1(g: int): int {
    Ordinal(Date(g, 1, 1))
  }

  function MondayOnOrBefore(n: int): int {
    n - (IsoWeekday(n) - 1)
  }

  function Jan4(g: int): int {
    Ordinal(Date(g, 1, 4))
  }

  /** The Monday of ISO week 1 of year g: the Monday on or before 4 January. */
  function Week1Monday(g: int): int {
    MondayOnOrBefore(Jan4(g))
  }

  function WeeksInYear(g: int): int {
    (Week1Monday(g + 1) - Week1Monday(g)) / 7
  }

  /** The date `%G-W%V-%u` parses "<G>-W<V>-1" to: 4 January's week, then
      V-1 weeks on. */
  function MondayOf(yw: YearWeek): int {
    Week1Monday(yw.year) + 7 * (yw.week - 1)
  }

  /** A token naming a week that exists in its ISO year. */
  predicate ValidYearWeek(yw: YearWeek) {
    1 <= yw.year <= 9999 && 1 <= yw.week <= WeeksInYear(yw.year)
  }

  /** The ISO rule stated independently of the 4 January anchor: day n lies in
      week (G, V) when the Thursday of its Monday-to-Sunday week falls in
      Gregorian year G, and V counts weeks from the start of G up to that
      Thursday. */
  predicate InIsoWeek(n: int, yw: YearWeek) {
    InWeekOfYear(n, Jan1(yw.year), Jan1(yw.year + 1), yw.week)
  }

  /** The Thursday rule for a year running from day `jan1` up to, not
      including, day `nextJan1`. */
  predicate InWeekOfYear(n: int, jan1: int, nextJan1: int, week: int) {
    var thursday := n - IsoWeekday(n) + 4;
    && jan1 <= thursday < nextJan1
    && week == (thursday - jan1) / 7 + 1
  }

  /** The token of the week after `yw`. */
  function NextWeek(yw: YearWeek): YearWeek {
    if yw.week < WeeksInYear(yw.year) then YearWeek(yw.year, yw.week + 1)
    else YearWeek(yw.year + 1, 1)
  }

  lemma DaysBeforeNextYear(y: int)
    ensures DaysBeforeYear(y + 1) == DaysBeforeYear(y) + DaysInYear(y)
  {
    var p := y - 1;
    FloorStep4(y);
    FloorStep100(y);
    FloorStep400(y);
    assert y % 400 == 0 ==> y % 100 == 0;
    assert y % 100 == 0 ==> y % 4 == 0;
  }

  lemma FloorStep4(y: int)
    ensures y / 4 - (y - 1) / 4 == if y % 4 == 0 then 1 else 0
  {
    var q, r := (y - 1) / 4, (y - 1) % 4;
    assert y == 4 * q + r + 1;
    if r == 3 {
      assert y == 4 * (q + 1);
    }
  }

  lemma FloorStep100(y: int)
    ensures y / 100 - (y - 1) / 100 == if y % 100 == 0 then 1 else 0
  {
    var q, r := (y - 1) / 100, (y - 1) % 100;
    assert y == 100 * q + r + 1;
    if r == 99 {
      assert y == 100 * (q + 1);
    }
  }

  lemma FloorStep400(y: int)
    ensures y / 400 - (y - 1) / 400 == if y % 400 == 0 then 1 else 0
  {
    var q, r := (y - 1) / 400, (y - 1) % 400;
    assert y == 400 * q + r + 1;
    if r == 399 {
      assert y == 400 * (q + 1);
    }
  }

  lemma MondayOnOrBeforeFacts(n: int)
    ensures IsoWeekday(MondayOnOrBefore(n)) == 1
    ensures n - 6 <= MondayOnOrBefore(n) <= n
  {
  }

  /** From one 4 January to the next there are `days` days (365 or 366), and
      from the Monday on or before the one to the Monday on or before the
      other 52 or 53 weeks, 53 when the earlier 1 January (three days before
      4 January) is a Thursday, or a Wednesday in a 366-day year. */
  lemma YearOfWeeks(jan4: int, days: int)
    requires days == 365 || days == 366
    ensures MondayOnOrBefore(jan4 + days) - MondayOnOrBefore(jan4) ==
      if IsoWeekday(jan4 - 3) == 4 || (days == 366 && IsoWeekday(jan4 - 3) == 3) then 371 else 364
  {
    var q, a := (jan4 - 1) / 7, (jan4 - 1) % 7;
    assert jan4 == 7 * q + a + 1;
    assert IsoWeekday(jan4) == a + 1;
    assert IsoWeekday(jan4 - 3) == (a + 4) % 7 + 1 by {
      assert jan4 - 4 == 7 * (q - 1) + (a + 4);
    }
    var e := days - 364;
    assert IsoWeekday(jan4 + days) == (a + e) % 7 + 1 by {
      assert jan4 + days - 1 == 7 * (q + 52) + (a + e);
    }
  }

  lemma Jan4OfNextYear(g: int)
    ensures Jan1(g) == Jan4(g) - 3
    ensures Jan4(g + 1) == Jan4(g) + DaysInYear(g)
    ensures Jan1(g + 1) == Jan1(g) + DaysInYear(g)
  {
    DaysBeforeNextYear(g);
  }

  /** A year has 52 or 53 ISO weeks, 53 exactly when it begins on a Thursday,
      or is a leap year beginning on a Wednesday. */
  lemma {:induction false} WeeksInYearRule(g: int)
    ensures Week1Monday(g + 1) == Week1Monday(g) + 7 * WeeksInYear(g)
    ensures WeeksInYear(g) == 52 || WeeksInYear(g) == 53
    ensures WeeksInYear(g) == 53 <==> IsoWeekday(Jan1(g)) == 4 || (IsLeap(g) && IsoWeekday(Jan1(g)) == 3)
  {
    Jan4OfNextYear(g);
    YearOfWeeks(Jan4(g), DaysInYear(g));
    WeekCount(Week1Monday(g), Week1Monday(g + 1), Jan1(g), IsLeap(g));
  }

  /** Two Mondays 364 or 371 days apart, by the rule of the year between
      them, are 52 or 53 weeks apart. */
  lemma WeekCount(w1: int, w2: int, jan1: int, leap: bool)
    requires w2 - w1 == if IsoWeekday(jan1) == 4 || (leap && IsoWeekday(jan1) == 3) then 371 else 364
    ensures w2 == w1 + 7 * ((w2 - w1) / 7)
    ensures (w2 - w1) / 7 == 52 || (w2 - w1) / 7 == 53
    ensures (w2 - w1) / 7 == 53 <==> IsoWeekday(jan1) == 4 || (leap && IsoWeekday(jan1) == 3)
  {
  }

  /** Day `k` of the week starting `before` weeks after `w1`, the Monday on
      or before the 4 January three days after `jan1`, and before the next
      such Monday `nextW1`: it is weekday k + 1, and its Thursday falls
      between `jan1` and the next 1 January, in the week numbered one more
      than the count of weeks since `w1`. */
  lemma ThursdayOfWeek(w1: int, before: int, k: int, jan1: int, nextJan1: int, weeks: int, nextW1: int, day: int)
    requires IsoWeekday(w1) == 1 && 0 <= k < 7 && 0 <= before < weeks
    requires jan1 - 3 <= w1 <= jan1 + 3 && nextW1 <= nextJan1 + 3 && nextW1 == w1 + 7 * weeks
    requires day == w1 + 7 * before + k
    ensures IsoWeekday(day) == k + 1
    ensures InWeekOfYear(day, jan1, nextJan1, before + 1)
  {
    assert IsoWeekday(day) == k + 1 by {
      assert day - 1 == (w1 - 1) + 7 * before + k;
    }
    assert (w1 + 7 * before + 3 - jan1) / 7 == before by {
      assert w1 + 7 * before + 3 - jan1 == 7 * before + (w1 + 3 - jan1);
    }
  }

  /** A token's date is a Monday, and that Monday and the six days after it
      all lie in ISO week (G, V). */
  lemma {:induction false} MondayOfStartsItsWeek(yw: YearWeek, k: int)
    requires ValidYearWeek(yw) && 0 <= k < 7
    ensures IsoWeekday(MondayOf(yw)) == 1
    ensures InIsoWeek(MondayOf(yw) + k, yw)
  {
    DayOfTokenWeekday(yw, 0);
    DayOfTokenWeek(yw, k);
  }

  /** Day `k` after a token's date is weekday k + 1. */
  lemma DayOfTokenWeekday(yw: YearWeek, k: int)
    requires ValidYearWeek(yw) && 0 <= k < 7
    ensures IsoWeekday(MondayOf(yw) + k) == k + 1
  {
    var g := yw.year;
    Week1Anchors(g);
    ThursdayOfWeek(Week1Monday(g), yw.week - 1, k, Jan1(g), Jan1(g + 1), WeeksInYear(g), Week1Monday(g + 1), MondayOf(yw) + k);
  }

  /** Day `k` after a token's date lies in the token's week, in the terms of
      the Thursday rule. */
  lemma DayOfTokenWeek(yw: YearWeek, k: int)
    requires ValidYearWeek(yw) && 0 <= k < 7
    ensures InWeekOfYear(MondayOf(yw) + k, Jan1(yw.year), Jan1(yw.year + 1), yw.week)
  {
    var g := yw.year;
    Week1Anchors(g);
    ThursdayOfWeek(Week1Monday(g), yw.week - 1, k, Jan1(g), Jan1(g + 1), WeeksInYear(g), Week1Monday(g + 1), MondayOf(yw) + k);
  }

  /** Where the Mondays of week 1 of a year and of the next year lie
      relative to their 1 Januaries, a whole number of weeks apart. */
  lemma Week1Anchors(g: int)
    ensures IsoWeekday(Week1Monday(g)) == 1
    ensures Jan1(g) - 3 <= Week1Monday(g) <= Jan1(g) + 3
    ensures Week1Monday(g + 1) <= Jan1(g + 1) + 3
    ensures Week1Monday(g + 1) == Week1Monday(g) + 7 * WeeksInYear(g)
  {
    WeeksInYearRule(g);
    Jan4OfNextYear(g);
    Jan4OfNextYear(g + 1);
    MondayOnOrBeforeFacts(Jan4(g));
    MondayOnOrBeforeFacts(Jan4(g + 1));
  }

  /** Consecutive tokens are seven days apart, across a year boundary too. */
  lemma {:induction false} NextWeekIsSevenDaysLater(yw: YearWeek)
    requires ValidYearWeek(yw) && yw.year < 9999
    ensures ValidYearWeek(NextWeek(yw))
    ensures YearWeekLess(yw, NextWeek(yw))
    ensures MondayOf(NextWeek(yw)) == MondayOf(yw) + 7
  {
    WeeksInYearRule(yw.year);
    WeeksInYearRule(yw.year + 1);
  }

  lemma {:induction false} Week1MondayIncreases(g: int, h: int)
    requires g < h
    ensures Week1Monday(g) + 7 * WeeksInYear(g) <= Week1Monday(h)
    decreases h - g
  {
    WeeksInYearRule(g);
    if g + 1 < h {
      Week1MondayIncreases(g + 1, h);
      WeeksInYearRule(g + 1);
    }
  }

  /** Later tokens name later Mondays, at least a week later; in particular
      distinct valid tokens name distinct dates. */
  lemma {:induction false} MondayOfIncreasing(a: YearWeek, b: YearWeek)
    requires ValidYearWeek(a) && ValidYearWeek(b) && YearWeekLess(a, b)
    ensures MondayOf(a) + 7 <= MondayOf(b)
  {
    if a.year < b.year {
      Week1MondayIncreases(a.year, b.year);
    }
  }

  lemma {:induction false} MonthsAccumulate(y: int, m: int, m': int)
    requires 1 <= m < m' <= 12
    ensures DaysBeforeMonth(y, m) + DaysInMonth(y, m) <= DaysBeforeMonth(y, m')
    decreases m'
  {
    if m + 1 < m' {
      MonthsAccumulate(y, m, m' - 1);
    }
  }

  lemma DaysBeforeDecember(y: int)
    ensures DaysBeforeMonth(y, 12) + DaysInMonth(y, 12) == DaysInYear(y)
  {
    var leap := if IsLeap(y) then 1 else 0;
    assert DaysBeforeMonth(y, 2) == 31;
    assert DaysBeforeMonth(y, 3) == 59 + leap;
    assert DaysBeforeMonth(y, 4) == 90 + leap;
    assert DaysBeforeMonth(y, 5) == 120 + leap;
    assert DaysBeforeMonth(y, 6) == 151 + leap;
    assert DaysBeforeMonth(y, 7) == 181 + leap;
    assert DaysBeforeMonth(y, 8) == 212 + leap;
    assert DaysBeforeMonth(y, 9) == 243 + leap;
    assert DaysBeforeMonth(y, 10) == 273 + leap;
    assert DaysBeforeMonth(y, 11) == 304 + leap;
    assert DaysBeforeMonth(y, 12) == 334 + leap;
  }

  lemma OrdinalWithinYear(d: Date)
    requires ValidDate(d)
    ensures DaysBeforeYear(d.year) < Ordinal(d) <= DaysBeforeYear(d.year) + DaysInYear(d.year)
  {
    DaysBeforeDecember(d.year);
    if 1 < d.month {
      MonthsAccumulate(d.year, 1, d.month);
    }
    if d.month < 12 {
      MonthsAccumulate(d.year, d.month, 12);
    }
  }

  lemma {:induction false} YearsAccumulate(y: int, y': int)
    requires y < y'
    ensures DaysBeforeYear(y) + DaysInYear(y) <= DaysBeforeYear(y')
    decreases y' - y
  {
    DaysBeforeNextYear(y);
    if y + 1 < y' {
      YearsAccumulate(y + 1, y');
    }
  }

  lemma {:induction false} OrdinalIncreasing(a: Date, b: Date)
    requires ValidDate(a) && ValidDate(b) && DateLess(a, b)
    ensures Ordinal(a) < Ordinal(b)
  {
    OrdinalWithinYear(a);
    OrdinalWithinYear(b);
    if a.year < b.year {
      YearsAccumulate(a.year, b.year);
    } else if a.month < b.month {
      MonthsAccumulate(a.year, a.month, b.month);
    }
  }

  /** Comparing two valid dates as (year, month, day) tuples, which their
      zero-padded "YYYY-MM-DD" labels compare like, and comparing their
      ordinals give the same answer. */
  lemma OrdinalOrderIsDateOrder(a: Date, b: Date)
    requires ValidDate(a) && ValidDate(b)
    ensures DateLess(a, b) <==> Ordinal(a) < Ordinal(b)
    ensures a == b <==> Ordinal(a) == Ordinal(b)
  {
    if DateLess(a, b) {
      OrdinalIncreasing(a, b);
    } else if DateLess(b, a) {
      OrdinalIncreasing(b, a);
    }
  }

  /** Fixed points of the calendar the data lives in: the epoch 2020-08-20
      is a Thursday inside week 2020-W34, whose Monday is 2020-08-17; 2020
      has 53 weeks, its last Monday is 2020-12-28 and 2021-W01 starts on
      2021-01-04. */
  lemma CalendarAnchors()
    ensures IsoWeekday(Ordinal(Date(2020, 8, 20))) == 4
    ensures MondayOf(YearWeek(2020, 34)) == Ordinal(Date(2020, 8, 17))
    ensures InIsoWeek(Ordinal(Date(2020, 8, 20)), YearWeek(2020, 34))
    ensures WeeksInYear(2020) == 53
    ensures MondayOf(YearWeek(2020, 53)) == Ordinal(Date(2020, 12, 28))
    ensures MondayOf(YearWeek(2021, 1)) == Ordinal(Date(2021, 1, 4))
  {
    assert DaysBeforeYear(2020) == 737424;
    assert DaysBeforeYear(2021) == 737790;
    assert DaysBeforeMonth(2020, 8) == 213;
    assert DaysBeforeMonth(2020, 12) == 335;
  }
}
