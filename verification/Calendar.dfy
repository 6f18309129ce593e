/**
 The calendar arithmetic behind the daily window of the archiver.

 `java.util.Calendar` is not part of the repository. What the archiver uses of it is its documented
 lenient mode: setting a day-of-month outside the month denotes the day that many days away from the
 first of that month. `Normalise` carries that out month by month; `DayNumber` is an independent,
 closed-form count of days against which every claim about windows is made. Months are numbered 1 to 12.
 */
module Calendar {
  import opened Bits

  datatype Date = Date(year: int, month: int, day: int)

  predicate Leap(y: int) {
    y % 4 == 0 && (y % 100 != 0 || y % 400 == 0)
  }

  function MonthLength(y: int, m: int): int
    requires 1 <= m <= 12
  {
    if m == 2 then (if Leap(y) then 29 else 28)
    else if m == 4 || m == 6 || m == 9 || m == 11 then 30
    else 31
  }

  predicate Valid(d: Date) {
    1 <= d.month <= 12 && 1 <= d.day <= MonthLength(d.year, d.month)
  }

  /** A date that exists. */
  type Day = d: Date | Valid(d) witness Date(1, 1, 1)

  /** Calendar order of dates: year, then month, then day. */
  predicate Before(a: Date, b: Date) {
    a.year < b.year
    || (a.year == b.year && (a.month < b.month || (a.month == b.month && a.day < b.day)))
  }

  // ---------------------------------------------------------------- counting days

  /** Days before 1 January of year `y`, counted from 1 January of year 1. */
  function YearStart(y: int): int {
    365 * (y - 1) + (y - 1) / 4 - (y - 1) / 100 + (y - 1) / 400
  }

  function DaysBeforeMonth(y: int, m: int): int
    requires 1 <= m <= 12
  {
    [0, 31, 59, 90, 120, 151, 181, 212, 243, 273, 304, 334][m - 1] + (if m > 2 && Leap(y) then 1 else 0)
  }

  function DayNumber(d: Date): int
    requires 1 <= d.month <= 12
  {
    YearStart(d.year) + DaysBeforeMonth(d.year, d.month) + d.day
  }

  /** Rounding down steps up exactly at the multiples. */
  lemma FloorStep(y: int, k: int)
    requires k > 1
    ensures y / k - (y - 1) / k == if y % k == 0 then 1 else 0
  {
    var q, r := y / k, y % k;
    assert y == k * q + r;
    if r == 0 {
      assert k * (q - 1) == k * q - k;
      DivModUnique(y - 1, k, q - 1, k - 1);
    } else {
      DivModUnique(y - 1, k, q, r - 1);
    }
  }

  lemma Multiples(y: int)
    ensures y % 400 == 0 ==> y % 100 == 0
    ensures y % 100 == 0 ==> y % 4 == 0
  {
  }

  /** Successive years are 366 days apart after a leap year and 365 otherwise. */
  lemma YearLength(y: int)
    ensures YearStart(y + 1) - YearStart(y) == if Leap(y) then 366 else 365
  {
    FloorStep(y, 4);
    FloorStep(y, 100);
    FloorStep(y, 400);
    Multiples(y);
  }

  lemma YearStartMonotone(a: int, b: int)
    requires a <= b
    ensures YearStart(a) <= YearStart(b)
  {
  }

  /** The last day of a month is followed by day one of the next, also across a year end. */
  lemma MonthStep(y: int, m: int)
    requires 1 <= m <= 12
    ensures var (ny, nm) := NextMonth(y, m);
            1 <= nm <= 12 && DayNumber(Date(ny, nm, 1)) == DayNumber(Date(y, m, 1)) + MonthLength(y, m)
    ensures MonthLength(y, m) >= 28
  {
    YearLength(y);
  }

  lemma DayInMonth(y: int, m: int, d: int)
    requires 1 <= m <= 12
    ensures DayNumber(Date(y, m, d)) == DayNumber(Date(y, m, 1)) + d - 1
  {
  }

  /** Day numbers grow strictly with the calendar, so a day number names at most one date. */
  lemma DayNumberMonotone(a: Date, b: Date)
    requires Valid(a) && Valid(b) && Before(a, b)
    ensures DayNumber(a) < DayNumber(b)
  {
    if a.year < b.year {
      YearLength(a.year);
      YearStartMonotone(a.year + 1, b.year);
    }
  }

  lemma DayNumberInjective(a: Date, b: Date)
    requires Valid(a) && Valid(b)
    ensures a == b <==> DayNumber(a) == DayNumber(b)
    ensures Before(a, b) <==> DayNumber(a) < DayNumber(b)
  {
    if Before(a, b) {
      DayNumberMonotone(a, b);
    } else if Before(b, a) {
      DayNumberMonotone(b, a);
    }
  }

  // ---------------------------------------------------------------- lenient normalisation

  function NextMonth(y: int, m: int): (int, int) {
    if m == 12 then (y + 1, 1) else (y, m + 1)
  }

  function PrevMonth(y: int, m: int): (int, int) {
    if m == 1 then (y - 1, 12) else (y, m - 1)
  }

  lemma MonthBack(y: int, m: int)
    requires 1 <= m <= 12
    ensures var (py, pm) := PrevMonth(y, m);
            && 1 <= pm <= 12 && MonthLength(py, pm) >= 28
            && DayNumber(Date(y, m, 1)) == DayNumber(Date(py, pm, 1)) + MonthLength(py, pm)
  {
    var (py, pm) := PrevMonth(y, m);
    MonthStep(py, pm);
  }

  /** `Calendar.set(y, m, d)` for any integer `d`: the valid date `d - 1` days after the first of the month. */
  function Normalise(y: int, m: int, d: int): (r: Date)
    requires 1 <= m <= 12
    ensures Valid(r)
    ensures DayNumber(r) == DayNumber(Date(y, m, 1)) + d - 1
    decreases if d < 1 then 1 - d else if d > MonthLength(y, m) then d else 0
  {
    if d < 1 then
      var (py, pm) := PrevMonth(y, m);
      MonthBack(y, m);
      Normalise(py, pm, d + MonthLength(py, pm))
    else if d > MonthLength(y, m) then
      var (ny, nm) := NextMonth(y, m);
      MonthStep(y, m);
      Normalise(ny, nm, d - MonthLength(y, m))
    else
      DayInMonth(y, m, d);
      Date(y, m, d)
  }

  /** What `run` computes for `hier`, and the launcher for the day of its next run. */
  function Yesterday(d: Day): Day
  {
    Normalise(d.year, d.month, d.day - 1)
  }

  function Tomorrow(d: Day): Day
  {
    Normalise(d.year, d.month, d.day + 1)
  }

  /** Yesterday is the Gregorian predecessor: the latest valid date before `d`. */
  lemma YesterdayIsPredecessor(d: Date, other: Date)
    requires Valid(d) && Valid(other)
    ensures Valid(Yesterday(d)) && Before(Yesterday(d), d)
    ensures Before(other, d) <==> other == Yesterday(d) || Before(other, Yesterday(d))
    ensures Tomorrow(Yesterday(d)) == d && Yesterday(Tomorrow(d)) == d
  {
    var y := Yesterday(d);
    DayNumberInjective(y, d);
    DayNumberInjective(other, d);
    DayNumberInjective(other, y);
    DayNumberInjective(Tomorrow(y), d);
    DayNumberInjective(Yesterday(Tomorrow(d)), d);
  }

  /** The three shapes of a day change, spelled out. */
  lemma YesterdayByCases(y: int, m: int, d: int)
    requires Valid(Date(y, m, d))
    ensures d > 1 ==> Yesterday(Date(y, m, d)) == Date(y, m, d - 1)
    ensures d == 1 && m > 1 ==> Yesterday(Date(y, m, d)) == Date(y, m - 1, MonthLength(y, m - 1))
    ensures d == 1 && m == 1 ==> Yesterday(Date(y, m, d)) == Date(y - 1, 12, 31)
  {
    var expected :=
      if d > 1 then Date(y, m, d - 1)
      else if m > 1 then Date(y, m - 1, MonthLength(y, m - 1))
      else Date(y - 1, 12, 31);
    var (py, pm) := PrevMonth(y, m);
    MonthStep(py, pm);
    DayNumberInjective(Yesterday(Date(y, m, d)), expected);
  }

  // ---------------------------------------------------------------- the daily window

  /** A DATETIME value: a calendar day and the seconds since its midnight. */
  datatype Stamp = Stamp(date: Date, seconds: nat)

  predicate AtOrAfter(a: Stamp, b: Stamp) {
    Before(b.date, a.date) || (a.date == b.date && a.seconds >= b.seconds)
  }

  /** `DATE >= hier AND DATE < ojd`, both bounds being midnights. */
  predicate InWindow(today: Date, t: Stamp)
    requires Valid(today)
  {
    AtOrAfter(t, Stamp(Yesterday(today), 0)) && !AtOrAfter(t, Stamp(today, 0))
  }

  /** The windows of successive days tile the timeline: every moment is in exactly one of them,
      the one opened on the following day. */
  lemma WindowsTile(today: Date, t: Stamp)
    requires Valid(today) && Valid(t.date)
    ensures InWindow(today, t) <==> DayNumber(t.date) == DayNumber(today) - 1
    ensures InWindow(today, t) <==> today == Tomorrow(t.date)
  {
    DayNumberInjective(t.date, today);
    DayNumberInjective(t.date, Yesterday(today));
    DayNumberInjective(today, Tomorrow(t.date));
  }
}
