/** Proleptic Gregorian dates as Python's `datetime.date` handles them: the
    years 1..9999, `replace`, subtraction of one day, the day ordinal, and the
    `%Y-%m-%d` text form. */
module Calendar {
  import opened Outcomes
  import opened PyStr
  import opened Decimal

  datatype Date = Date(year: int, month: int, day: int)

  const MinYear := 1
  const MaxYear := 9999

  predicate IsLeap(y: int) {
    y % 4 == 0 && (y % 100 != 0 || y % 400 == 0)
  }

  function DaysIn(y: int, m: int): (n: int)
    requires 1 <= m <= 12
    ensures 28 <= n <= 31
  {
    if m == 2 then (if IsLeap(y) then 29 else 28)
    else if m == 4 || m == 6 || m == 9 || m == 11 then 30
    else 31
  }

  function DaysInYear(y: int): int {
    if IsLeap(y) then 366 else 365
  }

  predicate Valid(d: Date) {
    MinYear <= d.year <= MaxYear && 1 <= d.month <= 12 && 1 <= d.day <= DaysIn(d.year, d.month)
  }

  /** `a < b` on dates. */
  predicate Before(a: Date, b: Date) {
    a.year < b.year
    || (a.year == b.year && (a.month < b.month || (a.month == b.month && a.day < b.day)))
  }

  /** `a <= b` on dates. */
  predicate NotAfter(a: Date, b: Date) {
    a == b || Before(a, b)
  }

  function DaysBeforeYear(y: int): nat
    requires y >= 1
  {
    if y == 1 then 0 else DaysBeforeYear(y - 1) + DaysInYear(y - 1)
  }

  function DaysBeforeMonth(y: int, m: int): nat
    requires 1 <= m <= 12
  {
    if m == 1 then 0 else DaysBeforeMonth(y, m - 1) + DaysIn(y, m - 1)
  }

  /** `d.toordinal()`: 0001-01-01 is day 1. */
  function Ordinal(d: Date): int
    requires Valid(d)
  {
    DaysBeforeYear(d.year) + DaysBeforeMonth(d.year, d.month) + d.day
  }

  lemma DaysBeforeDecember(y: int)
    ensures DaysBeforeMonth(y, 12) + 31 == DaysInYear(y)
  {
    assert DaysBeforeMonth(y, 12) == DaysBeforeMonth(y, 11) + 30;
    assert DaysBeforeMonth(y, 11) == DaysBeforeMonth(y, 10) + 31;
    assert DaysBeforeMonth(y, 10) == DaysBeforeMonth(y, 9) + 30;
    assert DaysBeforeMonth(y, 9) == DaysBeforeMonth(y, 8) + 31;
    assert DaysBeforeMonth(y, 8) == DaysBeforeMonth(y, 7) + 31;
    assert DaysBeforeMonth(y, 7) == DaysBeforeMonth(y, 6) + 30;
    assert DaysBeforeMonth(y, 6) == DaysBeforeMonth(y, 5) + 31;
    assert DaysBeforeMonth(y, 5) == DaysBeforeMonth(y, 4) + 30;
    assert DaysBeforeMonth(y, 4) == DaysBeforeMonth(y, 3) + 31;
    assert DaysBeforeMonth(y, 3) == DaysBeforeMonth(y, 2) + DaysIn(y, 2);
    assert DaysBeforeMonth(y, 2) == 31;
  }

  /** `d.replace(year=y, month=m, day=dd)`: a ValueError unless the fields name
      a real date. */
  function ReplaceDate(y: int, m: int, dd: int): (r: Result<Date>)
    ensures r.Ok? <==> Valid(Date(y, m, dd))
    ensures r.Ok? ==> r.value == Date(y, m, dd)
    ensures r.Fail? ==> r.error == InvalidDate
  {
    if Valid(Date(y, m, dd)) then Ok(Date(y, m, dd)) else Fail(InvalidDate)
  }

  /** `d - timedelta(days=1)`: the previous day, an OverflowError on the first
      representable date. */
  function MinusOneDay(d: Date): (r: Result<Date>)
    requires Valid(d)
    ensures r.Fail? <==> d == Date(MinYear, 1, 1)
    ensures r.Fail? ==> r.error == DateOverflow
    ensures r.Ok? ==> Valid(r.value) && Ordinal(r.value) == Ordinal(d) - 1
  {
    if d.day > 1 then Ok(Date(d.year, d.month, d.day - 1))
    else if d.month > 1 then
      MonthStart(d.year, d.month);
      Ok(Date(d.year, d.month - 1, DaysIn(d.year, d.month - 1)))
    else if d.year > MinYear then
      YearStart(d.year);
      Ok(Date(d.year - 1, 12, 31))
    else Fail(DateOverflow)
  }

  /** The first day of a month follows the last day of the month before. */
  lemma MonthStart(y: int, m: int)
    requires MinYear <= y <= MaxYear && 1 < m <= 12
    ensures Valid(Date(y, m - 1, DaysIn(y, m - 1)))
    ensures Ordinal(Date(y, m - 1, DaysIn(y, m - 1))) + 1 == Ordinal(Date(y, m, 1))
  {
    assert DaysBeforeMonth(y, m) == DaysBeforeMonth(y, m - 1) + DaysIn(y, m - 1);
  }

  /** The first day of a year follows the last day of the year before. */
  lemma YearStart(y: int)
    requires MinYear < y <= MaxYear
    ensures Valid(Date(y - 1, 12, 31))
    ensures Ordinal(Date(y - 1, 12, 31)) + 1 == Ordinal(Date(y, 1, 1))
  {
    assert DaysBeforeYear(y) == DaysBeforeYear(y - 1) + DaysInYear(y - 1);
    DaysBeforeDecember(y - 1);
  }

  /** Chronological order is ordinal order. */
  lemma {:induction false} BeforeIsOrdinalOrder(a: Date, b: Date)
    requires Valid(a) && Valid(b)
    ensures Before(a, b) <==> Ordinal(a) < Ordinal(b)
  {
    if a.year < b.year {
      YearEndsBefore(a, b.year);
    } else if b.year < a.year {
      YearEndsBefore(b, a.year);
    } else if a.month < b.month {
      MonthEndsBefore(a.year, a.month, a.day, b.month);
    } else if b.month < a.month {
      MonthEndsBefore(b.year, b.month, b.day, a.month);
    }
  }

  lemma {:induction false} MonthEndsBefore(y: int, m: int, dd: int, m2: int)
    requires 1 <= m < m2 <= 12 && dd <= DaysIn(y, m)
    ensures DaysBeforeMonth(y, m) + dd <= DaysBeforeMonth(y, m2)
    decreases m2
  {
    if m < m2 - 1 {
      MonthEndsBefore(y, m, dd, m2 - 1);
    }
  }

  lemma {:induction false} YearEndsBefore(a: Date, y2: int)
    requires Valid(a) && a.year < y2
    ensures Ordinal(a) <= DaysBeforeYear(y2)
    decreases y2
  {
    if a.year < y2 - 1 {
      YearEndsBefore(a, y2 - 1);
    } else {
      DaysBeforeDecember(a.year);
      if a.month < 12 {
        MonthEndsBefore(a.year, a.month, a.day, 12);
      }
    }
  }

  // ---------------------------------------------------------------- %Y-%m-%d

  /** `d.strftime("%Y-%m-%d")`, with the year zero-filled to four digits. */
  function FormatDate(d: Date): (s: string)
    requires Valid(d)
    ensures |s| == 10 && s[4] == '-' && s[7] == '-'
  {
    Pad(d.year, 4) + "-" + Pad(d.month, 2) + "-" + Pad(d.day, 2)
  }

  /** The text form loses nothing: distinct dates are written differently. */
  lemma FormatDateInjective(a: Date, b: Date)
    requires Valid(a) && Valid(b) && FormatDate(a) == FormatDate(b)
    ensures a == b
  {
    var fa := FormatDate(a);
    var fb := FormatDate(b);
    assert fa[..4] == Pad(a.year, 4) && fb[..4] == Pad(b.year, 4);
    assert fa[5..7] == Pad(a.month, 2) && fb[5..7] == Pad(b.month, 2);
    assert fa[8..] == Pad(a.day, 2) && fb[8..] == Pad(b.day, 2);
    PadInjective(a.year, b.year, 4);
    PadInjective(a.month, b.month, 2);
    PadInjective(a.day, b.day, 2);
  }

  /** Comparing the texts as strings, as Python does with `<`, is comparing the
      dates chronologically. */
  lemma FormatDateOrder(a: Date, b: Date)
    requires Valid(a) && Valid(b)
    ensures LexLt(FormatDate(a), FormatDate(b)) <==> Before(a, b)
  {
    PadOrder(a.year, b.year, 4);
    PadOrder(a.month, b.month, 2);
    PadOrder(a.day, b.day, 2);
    PadInjective(a.year, b.year, 4);
    PadInjective(a.month, b.month, 2);
    DashedOrder(Pad(a.year, 4), Pad(a.month, 2), Pad(a.day, 2), Pad(b.year, 4), Pad(b.month, 2), Pad(b.day, 2));
  }

  /** Three fields joined by dashes compare field by field when the first two
      fields have equal widths on both sides. */
  lemma DashedOrder(x1: string, x2: string, x3: string, y1: string, y2: string, y3: string)
    requires |x1| == |y1| && |x2| == |y2|
    ensures LexLt(x1 + "-" + x2 + "-" + x3, y1 + "-" + y2 + "-" + y3)
        <==> LexLt(x1, y1) || (x1 == y1 && (LexLt(x2, y2) || (x2 == y2 && LexLt(x3, y3))))
  {
    DashedTail(x1, x2, x3);
    DashedTail(y1, y2, y3);
    LexLtConcat(x1, "-" + (x2 + ("-" + x3)), y1, "-" + (y2 + ("-" + y3)));
    LexLtIrreflexive("-");
    LexLtConcat("-", x2 + ("-" + x3), "-", y2 + ("-" + y3));
    LexLtConcat(x2, "-" + x3, y2, "-" + y3);
    LexLtConcat("-", x3, "-", y3);
  }

  lemma DashedTail(x1: string, x2: string, x3: string)
    ensures x1 + "-" + x2 + "-" + x3 == x1 + ("-" + (x2 + ("-" + x3)))
  {
  }

  /** Likewise for `<=`. */
  lemma FormatDateOrderNonStrict(a: Date, b: Date)
    requires Valid(a) && Valid(b)
    ensures LexLe(FormatDate(a), FormatDate(b)) <==> NotAfter(a, b)
  {
    FormatDateOrder(a, b);
    if FormatDate(a) == FormatDate(b) {
      FormatDateInjective(a, b);
    }
  }
}
