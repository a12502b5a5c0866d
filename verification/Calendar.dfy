/** The Gregorian calendar from 2000 on, and the leap-day table the timestamp encoder works with. */
module Calendar {

  predicate Leap(year: int) {
    (year % 4 == 0 && year % 100 != 0) || year % 400 == 0
  }

  function MonthLength(year: int, month: int): int {
    if month == 2 then (if Leap(year) then 29 else 28)
    else if month == 4 || month == 6 || month == 9 || month == 11 then 30
    else 31
  }

  function YearLength(year: int): int {
    if Leap(year) then 366 else 365
  }

  datatype Date = Date(year: int, month: int, day: int)

  predicate Real(d: Date) {
    d.year >= 2000 && 1 <= d.month <= 12 && 1 <= d.day <= MonthLength(d.year, d.month)
  }

  function NextDay(d: Date): (e: Date)
    requires Real(d)
    ensures Real(e)
  {
    if d.day < MonthLength(d.year, d.month) then d.(day := d.day + 1)
    else if d.month < 12 then Date(d.year, d.month + 1, 1)
    else Date(d.year + 1, 1, 1)
  }

  /** The number of leap years among the n years from 2000 on. */
  function LeapsBefore(n: nat): nat {
    if n == 0 then 0 else LeapsBefore(n - 1) + (if Leap(n - 1) then 1 else 0)
  }

  /** The days of a year before the given month. */
  function DaysBefore(year: int, month: int): int
    requires month >= 1
    decreases month
  {
    if month == 1 then 0 else DaysBefore(year, month - 1) + MonthLength(year, month - 1)
  }

  /** The number of days from 2000-01-01 to d. */
  function DayNumber(d: Date): int
    requires Real(d)
  {
    365 * (d.year - 2000) + LeapsBefore(d.year - 2000) + DaysBefore(d.year, d.month) + d.day - 1
  }

  /** The calendar repeats after 400 years, so the leap rule may count years from 2000. */
  lemma LeapFrom2000(n: int)
    ensures Leap(2000 + n) <==> Leap(n)
  {
    assert (2000 + n) % 4 == n % 4 && (2000 + n) % 100 == n % 100 && (2000 + n) % 400 == n % 400;
  }

  /** The table in closed form: every fourth year, but not every hundredth, but every four-hundredth. */
  lemma {:induction false} LeapsClosedForm(n: nat)
    ensures LeapsBefore(n) == (n + 3) / 4 - (n + 99) / 100 + (n + 399) / 400
  {
    if n > 0 {
      LeapsClosedForm(n - 1);
      QuotientStep(n - 1, 4);
      QuotientStep(n - 1, 100);
      QuotientStep(n - 1, 400);
      Multiples(n - 1);
    }
  }

  lemma QuotientIs(a: nat, k: nat, q: nat, r: nat)
    requires k > 0 && a == k * q + r && r < k
    ensures a / k == q && a % k == r
  {
    var p := a / k;
    assert a == k * p + a % k;
    assert p < q ==> k * (p + 1) <= k * q;
    assert q < p ==> k * (q + 1) <= k * p;
  }

  /** One more year is one more multiple of k exactly when its number is one. */
  lemma QuotientStep(m: nat, k: nat)
    requires k > 0
    ensures (m + k) / k == (m + k - 1) / k + if m % k == 0 then 1 else 0
  {
    var q, r := m / k, m % k;
    assert m == k * q + r;
    QuotientIs(m + k, k, q + 1, r);
    if r == 0 {
      QuotientIs(m + k - 1, k, q, k - 1);
    } else {
      QuotientIs(m + k - 1, k, q + 1, r - 1);
    }
  }

  /** Multiples of 400 are multiples of 100, and those of 4. */
  lemma Multiples(m: nat)
    ensures (m % 400 == 0 ==> m % 100 == 0) && (m % 100 == 0 ==> m % 4 == 0)
  {
    if m % 400 == 0 {
      QuotientIs(m, 100, 4 * (m / 400), 0);
    }
    if m % 100 == 0 {
      QuotientIs(m, 4, 25 * (m / 100), 0);
    }
  }

  /** The days before each month, in a common and in a leap year. */
  lemma MonthStarts(year: int)
    ensures var leap := if (year % 4 == 0 && year % 100 != 0) || year % 400 == 0 then 1 else 0;
            && DaysBefore(year, 1) == 0 && DaysBefore(year, 2) == 31 && DaysBefore(year, 3) == 59 + leap
            && DaysBefore(year, 4) == 90 + leap && DaysBefore(year, 5) == 120 + leap && DaysBefore(year, 6) == 151 + leap
            && DaysBefore(year, 7) == 181 + leap && DaysBefore(year, 8) == 212 + leap && DaysBefore(year, 9) == 243 + leap
            && DaysBefore(year, 10) == 273 + leap && DaysBefore(year, 11) == 304 + leap
            && DaysBefore(year, 12) == 334 + leap
  {
    hide Leap;
    LeapMeans(year);
    assert DaysBefore(year, 3) == 31 + MonthLength(year, 2);
    assert DaysBefore(year, 5) == DaysBefore(year, 3) + 61;
    assert DaysBefore(year, 7) == DaysBefore(year, 5) + 61;
    assert DaysBefore(year, 9) == DaysBefore(year, 7) + 62;
    assert DaysBefore(year, 11) == DaysBefore(year, 9) + 61;
  }

  lemma LeapMeans(year: int)
    ensures Leap(year) <==> (year % 4 == 0 && year % 100 != 0) || year % 400 == 0
  {
  }

  lemma YearDays(year: int)
    ensures DaysBefore(year, 12) + MonthLength(year, 12) == YearLength(year)
  {
    hide Leap;
    assert DaysBefore(year, 4) == 59 + MonthLength(year, 2) - 28 + 31;
    assert DaysBefore(year, 7) == DaysBefore(year, 4) + 91;
    assert DaysBefore(year, 10) == DaysBefore(year, 7) + 92;
  }

  /** The next day's number is one more: with 2000-01-01 at 0 this fixes the number of every date. */
  lemma NextDayNumber(d: Date)
    requires Real(d)
    ensures DayNumber(NextDay(d)) == DayNumber(d) + 1
    ensures DayNumber(Date(2000, 1, 1)) == 0
  {
    hide Leap;
    if d.day == MonthLength(d.year, d.month) && d.month == 12 {
      YearDays(d.year);
      LeapFrom2000(d.year - 2000);
    }
  }

  // ---- The order of dates ----

  predicate Earlier(d: Date, e: Date) {
    || d.year < e.year
    || (d.year == e.year && d.month < e.month)
    || (d.year == e.year && d.month == e.month && d.day < e.day)
  }

  lemma {:induction false} DaysBeforeMonotone(year: int, m: int, n: int)
    requires 1 <= m < n
    ensures DaysBefore(year, m) + MonthLength(year, m) <= DaysBefore(year, n)
    decreases n
  {
    hide Leap;
    if m < n - 1 {
      DaysBeforeMonotone(year, m, n - 1);
    }
  }

  lemma {:induction false} LeapsMonotone(m: nat, n: nat)
    requires m <= n
    ensures LeapsBefore(m) <= LeapsBefore(n)
  {
    hide Leap;
    if m < n {
      LeapsMonotone(m, n - 1);
    }
  }

  /** A day of a year has a smaller number than the first day of every later year. */
  lemma YearEnd(d: Date, n: nat)
    requires Real(d) && d.year - 2000 < n
    ensures DayNumber(d) < 365 * n + LeapsBefore(n)
  {
    hide Leap;
    YearDays(d.year);
    if d.month < 12 {
      DaysBeforeMonotone(d.year, d.month, 12);
    }
    LeapFrom2000(d.year - 2000);
    assert LeapsBefore(d.year - 1999) == LeapsBefore(d.year - 2000) + if Leap(d.year - 2000) then 1 else 0;
    LeapsMonotone(d.year - 1999, n);
  }

  lemma {:induction false} DaysBeforePositive(year: int, m: int)
    requires m >= 1
    ensures DaysBefore(year, m) >= 0
    decreases m
  {
    hide Leap;
    if m > 1 {
      DaysBeforePositive(year, m - 1);
    }
  }

  lemma EarlierIsSmaller(d: Date, e: Date)
    requires Real(d) && Real(e) && Earlier(d, e)
    ensures DayNumber(d) < DayNumber(e)
  {
    hide Leap, MonthLength;
    if d.year < e.year {
      YearEnd(d, e.year - 2000);
      DaysBeforePositive(e.year, e.month);
    } else if d.month < e.month {
      DaysBeforeMonotone(d.year, d.month, e.month);
    }
  }

  // ---- The table and the day-of-year loop of the encoder ----

  lemma LeapsStep(n: nat)
    ensures LeapsBefore(n + 1) == LeapsBefore(n) + if Leap(n) then 1 else 0
    ensures LeapsBefore(0) == 0
  {
  }

  /** _leapyear: entry n counts the leap days of the n years from 2000 on. */
  method LeapTable() returns (l: array<nat>)
    ensures fresh(l) && l.Length == 2048
    ensures forall n :: 0 <= n < 2048 ==> l[n] == LeapsBefore(n)
  {
    hide Leap, LeapsBefore;
    LeapsStep(0);
    l := new nat[2048](_ => 0);
    var a, i := 0, 0;
    while i < 2047
      invariant 0 <= i <= 2047 && a == LeapsBefore(i)
      invariant forall n :: 0 <= n <= i ==> l[n] == LeapsBefore(n)
    {
      LeapsStep(i);
      if Leap(i) {
        a := a + 1;
      }
      l[i + 1] := a;
      i := i + 1;
    }
  }

  /** The code's length of month i in year 2000 + year: 31st days alternate and shift in August. */
  function LoopLength(year: nat, i: int): int {
    if i == 2 then (if Leap(year) then 29 else 28)
    else if i < 8 then 30 + i % 2
    else 30 + (i + 1) % 2
  }

  lemma LoopLengthIsMonthLength(year: nat, i: int)
    requires 1 <= i <= 12
    ensures LoopLength(year, i) == MonthLength(2000 + year, i)
  {
    LeapFrom2000(year);
  }

  /** The day-of-year loop. */
  method YearDay(year: nat, month: nat, day: nat) returns (yday: int)
    requires 1 <= month <= 12
    ensures yday == DaysBefore(2000 + year, month) + day
  {
    hide Leap, MonthLength;
    yday := 0;
    var i := 1;
    while i < month
      invariant 1 <= i <= month
      invariant yday == DaysBefore(2000 + year, i)
    {
      LoopLengthIsMonthLength(year, i);
      yday := yday + LoopLength(year, i);
      i := i + 1;
    }
    yday := yday + day;
  }
}
