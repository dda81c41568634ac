/**
 * The proleptic Gregorian calendar as Python's `datetime` module counts it:
 * day ordinals start at 1 on 0001-01-01, and years run from 1 to 9999.
 */
module Civil {

  const MinYear := 1
  const MaxYear := 9999

  predicate IsLeap(y: int) {
    y % 4 == 0 && (y % 100 != 0 || y % 400 == 0)
  }

  function DaysInYear(y: int): int {
    if IsLeap(y) then 366 else 365
  }

  function DaysInMonth(y: int, m: int): int
    requires 1 <= m <= 12
  {
    if m == 2 then (if IsLeap(y) then 29 else 28)
    else if m == 4 || m == 6 || m == 9 || m == 11 then 30
    else 31
  }

  /** Days of year `y` that come before the first day of month `m` (`m == 13` gives the year's length). */
  function DaysBeforeMonth(y: int, m: int): int
    requires 1 <= m <= 13
  {
    [0, 31, 59, 90, 120, 151, 181, 212, 243, 273, 304, 334, 365][m - 1]
    + (if m > 2 && IsLeap(y) then 1 else 0)
  }

  /** Days from 0001-01-01 to the first day of year `y`. */
  function DaysBeforeYear(y: int): int
    requires y >= 1
  {
    var p := y - 1;
    365 * p + p / 4 - p / 100 + p / 400
  }

  predicate ValidDate(y: int, m: int, d: int) {
    MinYear <= y <= MaxYear && 1 <= m <= 12 && 1 <= d <= DaysInMonth(y, m)
  }

  /** The ordinal of 9999-12-31, the last day a Python `date` can hold. */
  const MaxOrdinal := 3652059

  /** The day ordinal of a calendar date: 0001-01-01 is day 1. */
  function ToOrdinal(y: int, m: int, d: int): int
    requires ValidDate(y, m, d)
  {
    DaysBeforeYear(y) + DaysBeforeMonth(y, m) + d
  }

  lemma MonthStep(y: int, m: int)
    requires 1 <= m <= 12
    ensures DaysBeforeMonth(y, m + 1) == DaysBeforeMonth(y, m) + DaysInMonth(y, m)
  {
  }

  lemma YearStep(y: int)
    requires y >= 1
    ensures DaysBeforeYear(y + 1) == DaysBeforeYear(y) + DaysInYear(y)
  {
    StepDiv(y - 1);
    CenturyLeap(y);
  }

  /** Counting the multiples of 4, 100 or 400 up to `p + 1` adds one exactly when it divides `p + 1`. */
  lemma StepDiv(p: int)
    requires p >= 0
    ensures (p + 1) / 4 == p / 4 + (if (p + 1) % 4 == 0 then 1 else 0)
    ensures (p + 1) / 100 == p / 100 + (if (p + 1) % 100 == 0 then 1 else 0)
    ensures (p + 1) / 400 == p / 400 + (if (p + 1) % 400 == 0 then 1 else 0)
  {
  }

  /** A multiple of 400 is a multiple of 100, and a multiple of 100 one of 4. */
  lemma CenturyLeap(y: int)
    ensures y % 400 == 0 ==> y % 100 == 0
    ensures y % 100 == 0 ==> y % 4 == 0
  {
  }

  /** Each year after `a` adds at least 365 days. */
  lemma {:induction false} YearsGrow(a: int, b: int)
    requires 1 <= a <= b
    ensures DaysBeforeYear(a) + 365 * (b - a) <= DaysBeforeYear(b)
    decreases b - a
  {
    if a < b {
      YearsGrow(a, b - 1);
      YearStep(b - 1);
    }
  }

  /** The year holding day ordinal `n`: the one year whose days enclose `n`. */
  function YearOf(n: int): (y: int)
    requires n >= 1
    ensures y >= 1 && DaysBeforeYear(y) < n <= DaysBeforeYear(y + 1)
  {
    var y0 := (n - 1) / 366 + 1;
    assert DaysBeforeYear(y0) <= 366 * (y0 - 1);
    YearFrom(n, y0)
  }

  /** Walks up from year `y`, whose first day is not after `n`, to the year holding `n`. */
  function YearFrom(n: int, y: int): (r: int)
    requires y >= 1 && DaysBeforeYear(y) < n
    ensures r >= y && DaysBeforeYear(r) < n <= DaysBeforeYear(r + 1)
    decreases n - DaysBeforeYear(y)
  {
    YearStep(y);
    if n <= DaysBeforeYear(y + 1) then y else YearFrom(n, y + 1)
  }

  /** The month of year `y` holding day `k` of that year (counting from 1). */
  function MonthFrom(y: int, k: int, m: int): (r: int)
    requires 1 <= m <= 12 && DaysBeforeMonth(y, m) < k <= DaysBeforeMonth(y, 13)
    ensures m <= r <= 12 && DaysBeforeMonth(y, r) < k <= DaysBeforeMonth(y, r + 1)
    decreases 12 - m
  {
    if k <= DaysBeforeMonth(y, m + 1) then m else MonthFrom(y, k, m + 1)
  }

  datatype Date = Date(year: int, month: int, day: int)

  /** The calendar date of day ordinal `n` (Python's `date.fromordinal`). */
  function FromOrdinal(n: int): (d: Date)
    requires 1 <= n <= MaxOrdinal
    ensures ValidDate(d.year, d.month, d.day)
    ensures ToOrdinal(d.year, d.month, d.day) == n
  {
    var y := YearOf(n);
    YearStep(y);
    if y > MaxYear then
      YearsGrow(MaxYear + 1, y);
      assert false;
      Date(0, 0, 0)
    else
      var k := n - DaysBeforeYear(y);
      var m := MonthFrom(y, k, 1);
      MonthStep(y, m);
      Date(y, m, k - DaysBeforeMonth(y, m))
  }

  /** Two distinct years never share a day. */
  lemma YearUnique(n: int, a: int, b: int)
    requires a >= 1 && DaysBeforeYear(a) < n <= DaysBeforeYear(a + 1)
    requires b >= 1 && DaysBeforeYear(b) < n <= DaysBeforeYear(b + 1)
    ensures a == b
  {
    if a < b {
      YearsGrow(a + 1, b);
    } else if b < a {
      YearsGrow(b + 1, a);
    }
  }

  /** Two distinct months of one year never share a day. */
  lemma MonthUnique(y: int, k: int, a: int, b: int)
    requires 1 <= a <= 12 && DaysBeforeMonth(y, a) < k <= DaysBeforeMonth(y, a + 1)
    requires 1 <= b <= 12 && DaysBeforeMonth(y, b) < k <= DaysBeforeMonth(y, b + 1)
    ensures a == b
  {
  }

  /** Every valid date has an ordinal from 1 to `MaxOrdinal`. */
  lemma OrdinalRange(y: int, m: int, d: int)
    requires ValidDate(y, m, d)
    ensures 1 <= ToOrdinal(y, m, d) <= MaxOrdinal
  {
    MonthStep(y, m);
    YearStep(y);
    assert DaysBeforeMonth(y, m + 1) <= DaysBeforeMonth(y, 13);
    YearsGrow(y + 1, MaxYear + 1);
  }

  /** Converting a date to its ordinal and back gives the date again. */
  lemma DateRoundTrip(y: int, m: int, d: int)
    requires ValidDate(y, m, d)
    ensures 1 <= ToOrdinal(y, m, d) <= MaxOrdinal
    ensures FromOrdinal(ToOrdinal(y, m, d)) == Date(y, m, d)
  {
    var n := ToOrdinal(y, m, d);
    OrdinalRange(y, m, d);
    MonthStep(y, m);
    YearStep(y);
    var r := FromOrdinal(n);
    YearUnique(n, r.year, y);
    MonthUnique(y, n - DaysBeforeYear(y), r.month, m);
  }
}
