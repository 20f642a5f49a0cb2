/** Proleptic Gregorian dates as Python's `datetime.date` represents them:
    years 1..9999, day ordinals counted from 0001-01-01 (ordinal 1), and
    Monday = 0 weekdays. */
module Calendar {
  import opened Wrappers

  const MinYear := 1
  const MaxYear := 9999
  /** Ordinal of 9999-12-31, the last date Python's `date` can hold. */
  const MaxOrdinal := 3652059

  datatype Date = Date(year: int, month: int, day: int)

  predicate IsLeap(y: int) {
    y % 4 == 0 && (y % 100 != 0 || y % 400 == 0)
  }

  function DaysInYear(y: int): int {
    if IsLeap(y) then 366 else 365
  }

  function DaysInMonth(y: int, m: int): int
    requires 1 <= m <= 12
  {
    if m == 2 then (if IsLeap(y) then 29 else 28)
    else if m == 4 || m == 6 || m == 9 || m == 11 then 30
    else 31
  }

  /** The dates `datetime.date(year, month, day)` accepts without raising. */
  predicate ValidDate(d: Date) {
    && MinYear <= d.year <= MaxYear
    && 1 <= d.month <= 12
    && 1 <= d.day <= DaysInMonth(d.year, d.month)
  }

  /** Number of days in the years before `y` (Python's `_days_before_year`):
      365 a year, plus one for every fourth year, minus one for every
      hundredth, plus one for every four-hundredth. */
  function DaysBeforeYear(y: int): int
    requires y >= 1
  {
    var p := y - 1;
    p * 365 + p / 4 - p / 100 + p / 400
  }

  /** Number of days in year `y` before the first of month `m`
      (Python's `_days_before_month`). */
  function DaysBeforeMonth(y: int, m: int): int
    requires 1 <= m <= 12
  {
    var table := [0, 31, 59, 90, 120, 151, 181, 212, 243, 273, 304, 334];
    table[m - 1] + (if m > 2 && IsLeap(y) then 1 else 0)
  }

  /** Python's `date.toordinal()`: 0001-01-01 is day 1 and every later
      date counts on from there. */
  function ToOrdinal(d: Date): (r: int)
    requires ValidDate(d)
    ensures 1 <= r
    ensures d.year == MinYear && d.month == 1 ==> r == d.day
  {
    EarlierDaysNonNegative(d.year);
    DaysBeforeYear(d.year) + DaysBeforeMonth(d.year, d.month) + d.day
  }

  /** No year starts before day 1. */
  lemma EarlierDaysNonNegative(y: int)
    requires y >= 1
    ensures DaysBeforeYear(y) >= 0
  {
    var p := y - 1;
    assert p / 4 >= p / 100;
  }

  /** Python's `date.weekday()`: Monday is 0, Sunday is 6, and the first
      supported date, 0001-01-01, is a Monday. */
  function Weekday(d: Date): (r: int)
    requires ValidDate(d)
    ensures 0 <= r < 7
    ensures d.year == MinYear && d.month == 1 && d.day == 1 ==> r == 0
  {
    var o := ToOrdinal(d);
    assert d.year == MinYear && d.month == 1 && d.day == 1 ==> o == 1;
    FirstDayIsMonday(o);
    (o + 6) % 7
  }

  /** Ordinal 1 falls on weekday 0. */
  lemma FirstDayIsMonday(o: int)
    ensures o == 1 ==> (o + 6) % 7 == 0
  {
  }

  /** `(to - from).days` for two dates: positive exactly when `from` comes
      first and zero exactly for the same date. */
  function DaysBetween(from: Date, to: Date): (r: int)
    requires ValidDate(from) && ValidDate(to)
    ensures r > 0 <==> Before(from, to)
    ensures r == 0 <==> from == to
  {
    OrdinalOrder(from, to);
    ToOrdinal(to) - ToOrdinal(from)
  }

  /** Python's `a < b` on dates: lexicographic on (year, month, day), so no
      date comes before itself. */
  predicate Before(a: Date, b: Date): (r: bool)
    ensures r ==> a != b
  {
    || a.year < b.year
    || (a.year == b.year && a.month < b.month)
    || (a.year == b.year && a.month == b.month && a.day < b.day)
  }

  /** `Before` is a strict total order: it chains, and of two different
      dates exactly one comes first. */
  lemma BeforeIsStrictOrder(a: Date, b: Date, c: Date)
    ensures Before(a, b) && Before(b, c) ==> Before(a, c)
    ensures a != b ==> (Before(a, b) <==> !Before(b, a))
  {
  }

  /** `date.replace(year=y)`: raises ValueError when the day does not exist
      in year `y` (29 February) or `y` is outside 1..9999. */
  function ReplaceYear(d: Date, y: int): (r: Result<Date>)
    ensures r.Ok? <==> ValidDate(Date(y, d.month, d.day))
    ensures r.Ok? ==> r.value.year == y && r.value.month == d.month && r.value.day == d.day
    ensures r.Err? ==> r.error == ValueError
  {
    var e := Date(y, d.month, d.day);
    if ValidDate(e) then Ok(e) else Err(ValueError)
  }

  // ---------------------------------------------------------------------
  // Ordinal arithmetic

  lemma YearStep(y: int)
    requires y >= 1
    ensures DaysBeforeYear(y + 1) == DaysBeforeYear(y) + DaysInYear(y)
  {
    var p := y - 1;
    StepBy4(p);
    StepBy100(p);
    StepBy400(p);
  }

  /** Counting one more year adds a leap-rule multiple exactly when the new
      year is one. */
  lemma StepBy4(p: int)
    requires p >= 0
    ensures (p + 1) / 4 == p / 4 + (if (p + 1) % 4 == 0 then 1 else 0)
  {
  }

  lemma StepBy100(p: int)
    requires p >= 0
    ensures (p + 1) / 100 == p / 100 + (if (p + 1) % 100 == 0 then 1 else 0)
  {
  }

  lemma StepBy400(p: int)
    requires p >= 0
    ensures (p + 1) / 400 == p / 400 + (if (p + 1) % 400 == 0 then 1 else 0)
  {
  }

  lemma MonthStep(y: int, m: int)
    requires 1 <= m < 12
    ensures DaysBeforeMonth(y, m + 1) == DaysBeforeMonth(y, m) + DaysInMonth(y, m)
  {
  }

  lemma LastMonth(y: int)
    ensures DaysBeforeMonth(y, 12) + DaysInMonth(y, 12) == DaysInYear(y)
  {
  }

  lemma {:induction false} MonthsMonotone(y: int, m1: int, m2: int)
    requires 1 <= m1 < m2 <= 12
    ensures DaysBeforeMonth(y, m1) + DaysInMonth(y, m1) <= DaysBeforeMonth(y, m2)
    decreases m2 - m1
  {
    MonthStep(y, m1);
    if m1 + 1 < m2 {
      MonthsMonotone(y, m1 + 1, m2);
    }
  }

  lemma {:induction false} YearsMonotone(y1: int, y2: int)
    requires 1 <= y1 < y2
    ensures DaysBeforeYear(y1) + DaysInYear(y1) <= DaysBeforeYear(y2)
    decreases y2 - y1
  {
    YearStep(y1);
    if y1 + 1 < y2 {
      YearsMonotone(y1 + 1, y2);
    }
  }

  /** A date's ordinal lies inside the span of its own year. */
  lemma OrdinalWithinYear(d: Date)
    requires ValidDate(d)
    ensures DaysBeforeYear(d.year) < ToOrdinal(d) <= DaysBeforeYear(d.year) + DaysInYear(d.year)
  {
    LastMonth(d.year);
    if d.month < 12 {
      MonthsMonotone(d.year, d.month, 12);
    }
  }

  lemma BeforeMeansSmallerOrdinal(a: Date, b: Date)
    requires ValidDate(a) && ValidDate(b)
    requires Before(a, b)
    ensures ToOrdinal(a) < ToOrdinal(b)
  {
    if a.year < b.year {
      OrdinalWithinYear(a);
      OrdinalWithinYear(b);
      YearsMonotone(a.year, b.year);
    } else if a.month < b.month {
      MonthsMonotone(a.year, a.month, b.month);
    }
  }

  /** Python compares dates field by field; that order is exactly the order
      of their ordinals, and the ordinal identifies the date. */
  lemma OrdinalOrder(a: Date, b: Date)
    requires ValidDate(a) && ValidDate(b)
    ensures Before(a, b) <==> ToOrdinal(a) < ToOrdinal(b)
    ensures a == b <==> ToOrdinal(a) == ToOrdinal(b)
  {
    if Before(a, b) {
      BeforeMeansSmallerOrdinal(a, b);
    } else if Before(b, a) {
      BeforeMeansSmallerOrdinal(b, a);
    }
  }

  /** Every valid date has an ordinal in 1..MaxOrdinal; only 0001-01-01
      has the first and only 9999-12-31 the last. */
  lemma OrdinalRange(d: Date)
    requires ValidDate(d)
    ensures 1 <= ToOrdinal(d) <= MaxOrdinal
    ensures ToOrdinal(d) == 1 ==> d.year == MinYear && d.month == 1 && d.day == 1
    ensures ToOrdinal(d) == MaxOrdinal ==> d.year == MaxYear && d.month == 12 && d.day == 31
  {
    OrdinalLowerBound(d);
    OrdinalUpperBound(d);
  }

  lemma OrdinalLowerBound(d: Date)
    requires ValidDate(d)
    ensures 1 <= ToOrdinal(d)
    ensures ToOrdinal(d) == 1 ==> d.year == MinYear && d.month == 1 && d.day == 1
  {
    OrdinalWithinYear(d);
    if d.year > MinYear {
      YearsMonotone(MinYear, d.year);
    } else if d.month > 1 {
      MonthsMonotone(d.year, 1, d.month);
    }
  }

  lemma OrdinalUpperBound(d: Date)
    requires ValidDate(d)
    ensures ToOrdinal(d) <= MaxOrdinal
    ensures ToOrdinal(d) == MaxOrdinal ==> d.year == MaxYear && d.month == 12 && d.day == 31
  {
    OrdinalWithinYear(d);
    LastYearEnd();
    if d.year < MaxYear {
      YearsMonotone(d.year, MaxYear);
    } else if d.month < 12 {
      MonthsMonotone(d.year, d.month, 12);
    }
  }

  /** The last year Python supports ends on ordinal MaxOrdinal. */
  lemma LastYearEnd()
    ensures DaysBeforeYear(MaxYear) + DaysInYear(MaxYear) == MaxOrdinal
    ensures DaysBeforeMonth(MaxYear, 12) == 334
  {
    assert DaysBeforeYear(MaxYear) == 3651694;
  }

  // ---------------------------------------------------------------------
  // Adding days (`date + timedelta(days=n)`)

  /** The following calendar day; OverflowError after 9999-12-31. */
  function NextDay(d: Date): (r: Result<Date>)
    requires ValidDate(d)
    ensures r.Ok? <==> ToOrdinal(d) < MaxOrdinal
    ensures r.Ok? ==> ValidDate(r.value) && ToOrdinal(r.value) == ToOrdinal(d) + 1
    ensures r.Err? ==> r.error == OverflowError
  {
    if d.day < DaysInMonth(d.year, d.month) then
      DayAfter(d, Date(d.year, d.month, d.day + 1));
      Ok(Date(d.year, d.month, d.day + 1))
    else if d.month < 12 then
      DayAfter(d, Date(d.year, d.month + 1, 1));
      Ok(Date(d.year, d.month + 1, 1))
    else if d.year < MaxYear then
      DayAfter(d, Date(d.year + 1, 1, 1));
      Ok(Date(d.year + 1, 1, 1))
    else
      LastYearEnd();
      Err(OverflowError)
  }

  /** `e` is the calendar day after `d`: its ordinal is one more, so `d`
      was not the last supported day. */
  lemma DayAfter(d: Date, e: Date)
    requires ValidDate(d)
    requires || (d.day < DaysInMonth(d.year, d.month) && e == Date(d.year, d.month, d.day + 1))
             || (d.day == DaysInMonth(d.year, d.month) && d.month < 12 && e == Date(d.year, d.month + 1, 1))
             || (d.day == 31 && d.month == 12 && d.year < MaxYear && e == Date(d.year + 1, 1, 1))
    ensures ValidDate(e) && ToOrdinal(e) == ToOrdinal(d) + 1 && ToOrdinal(d) < MaxOrdinal
  {
    OrdinalRange(d);
    OrdinalRange(e);
    if e.month == 1 && e.day == 1 && e.year > d.year {
      LastMonth(d.year);
      YearStep(d.year);
    } else if e.month > d.month {
      MonthStep(d.year, d.month);
    }
  }

  /** The preceding calendar day; OverflowError before 0001-01-01. */
  function PrevDay(d: Date): (r: Result<Date>)
    requires ValidDate(d)
    ensures r.Ok? <==> ToOrdinal(d) > 1
    ensures r.Ok? ==> ValidDate(r.value) && ToOrdinal(r.value) == ToOrdinal(d) - 1
    ensures r.Err? ==> r.error == OverflowError
  {
    if d.day > 1 then
      DayAfter(Date(d.year, d.month, d.day - 1), d);
      Ok(Date(d.year, d.month, d.day - 1))
    else if d.month > 1 then
      DayAfter(Date(d.year, d.month - 1, DaysInMonth(d.year, d.month - 1)), d);
      Ok(Date(d.year, d.month - 1, DaysInMonth(d.year, d.month - 1)))
    else if d.year > MinYear then
      DayAfter(Date(d.year - 1, 12, 31), d);
      Ok(Date(d.year - 1, 12, 31))
    else
      assert ToOrdinal(d) == 1;
      Err(OverflowError)
  }

  /** `d + timedelta(days=n)`: Python adds `n` to the ordinal and raises
      OverflowError when the sum leaves 1..MaxOrdinal. */
  function AddDays(d: Date, n: int): (r: Result<Date>)
    requires ValidDate(d)
    ensures r.Ok? <==> 1 <= ToOrdinal(d) + n <= MaxOrdinal
    ensures r.Ok? ==> ValidDate(r.value) && ToOrdinal(r.value) == ToOrdinal(d) + n
    ensures r.Err? ==> r.error == OverflowError
  {
    OrdinalRange(d);
    if n >= 0 then Forward(d, n) else Backward(d, -n)
  }

  /** Steps forward `n` days one day at a time. */
  function Forward(d: Date, n: nat): (r: Result<Date>)
    requires ValidDate(d)
    ensures r.Ok? <==> ToOrdinal(d) + n <= MaxOrdinal
    ensures r.Ok? ==> ValidDate(r.value) && ToOrdinal(r.value) == ToOrdinal(d) + n
    ensures r.Err? ==> r.error == OverflowError
    decreases n
  {
    if n == 0 then Ok(d)
    else
      match NextDay(d)
      case Ok(e) => Forward(e, n - 1)
      case Err(_) => Err(OverflowError)
  }

  /** Steps backward `n` days one day at a time. */
  function Backward(d: Date, n: nat): (r: Result<Date>)
    requires ValidDate(d)
    ensures r.Ok? <==> 1 <= ToOrdinal(d) - n
    ensures r.Ok? ==> ValidDate(r.value) && ToOrdinal(r.value) == ToOrdinal(d) - n
    ensures r.Err? ==> r.error == OverflowError
    decreases n
  {
    if n == 0 then Ok(d)
    else
      match PrevDay(d)
      case Ok(e) => Backward(e, n - 1)
      case Err(_) => Err(OverflowError)
  }

  /** Moving a date by `k` days moves its weekday by `k` modulo 7. */
  lemma WeekdayAfter(d: Date, e: Date, k: int)
    requires ValidDate(d) && ValidDate(e)
    requires ToOrdinal(e) == ToOrdinal(d) + k
    ensures Weekday(e) == (Weekday(d) + k) % 7
  {
    ModSeven(ToOrdinal(d) + 6, k);
  }

  lemma ModSeven(x: int, k: int)
    ensures (x + k) % 7 == (x % 7 + k) % 7
  {
    var q := x / 7;
    assert x == 7 * q + x % 7;
    assert (x + k) == 7 * q + (x % 7 + k);
  }
}
