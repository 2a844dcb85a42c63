/** Calendar arithmetic: Qubic dates to seconds since 1970-01-01. */
module Calendar {
  import opened Bytes

  predicate IsLeap(year: nat) {
    (year % 4 == 0 && year % 100 != 0) || year % 400 == 0
  }

  const DAYS_IN_MONTH: seq<nat> := [0, 31, 28, 31, 30, 31, 30, 31, 31, 30, 31, 30, 31]

  datatype Date = Date(year: nat, month: nat, day: nat, hour: nat, minute: nat, second: nat)

  function MonthDays(year: nat, month: nat): nat
    requires 1 <= month <= 12
  {
    DAYS_IN_MONTH[month] + if month == 2 && IsLeap(year) then 1 else 0
  }

  predicate ValidDate(d: Date) {
    && 1970 <= d.year && 1 <= d.month <= 12 && 1 <= d.day <= MonthDays(d.year, d.month)
    && d.hour < 24 && d.minute < 60 && d.second < 60
  }

  function YearLength(year: nat): nat { if IsLeap(year) then 366 else 365 }

  /** Days from 1970 to the start of a year, year by year. */
  function DaysBeforeYear(year: nat): nat {
    if year <= 1970 then 0 else DaysBeforeYear(year - 1) + YearLength(year - 1)
  }

  /** Days from the start of the year to the start of a month, month by month. */
  function DaysBeforeMonth(year: nat, month: nat): nat
    requires month <= 13
  {
    if month <= 1 then 0 else DaysBeforeMonth(year, month - 1) + MonthDays(year, month - 1)
  }

  function ToUnix(d: Date): int
    requires d.month <= 13
  {
    (DaysBeforeYear(d.year) + DaysBeforeMonth(d.year, d.month) + Max(d.day - 1, 0)) * 86400 + d.hour * 3600 + d.minute * 60 + d.second
  }

  method CountYears(year: nat) returns (totalDays: nat)
    ensures totalDays == DaysBeforeYear(year)
  {
    totalDays := 0;
    var y := 1970;
    while y < year
      invariant 1970 <= y && (y <= year || y == 1970)
      invariant totalDays == DaysBeforeYear(y)
    {
      totalDays := totalDays + if IsLeap(y) then 366 else 365;
      y := y + 1;
    }
  }

  /** A month above 13 indexes past the table. */
  method CountMonths(year: nat, month: nat) returns (totalDays: Option<nat>)
    ensures totalDays == if month <= 13 then Some(DaysBeforeMonth(year, month)) else None
  {
    var total: nat := 0;
    var m := 1;
    while m < month
      invariant 1 <= m <= 13 && (m <= month || m == 1)
      invariant total == DaysBeforeMonth(year, m)
    {
      if m >= |DAYS_IN_MONTH| {
        return None;
      }
      total := total + DAYS_IN_MONTH[m];
      if m == 2 && IsLeap(year) {
        total := total + 1;
      }
      m := m + 1;
    }
    totalDays := Some(total);
  }

  /** `None` stands for the panic on a month above 13. */
  method QubicDateToUnix(d: Date) returns (seconds: Option<int>)
    ensures seconds == if d.month <= 13 then Some(ToUnix(d)) else None
  {
    var totalDays := CountYears(d.year);
    var months := CountMonths(d.year, d.month);
    if months.None? {
      return None;
    }
    totalDays := totalDays + months.value + Max(d.day - 1, 0);
    seconds := Some(totalDays * 86400 + d.hour * 3600 + d.minute * 60 + d.second);
  }

  // ---------------------------------------------------------------- the closed formula

  /** The day count of the POSIX formula, with `tm_year` the years since 1900. */
  function PosixDays(tmYear: int, tmYday: int): int {
    tmYday + (tmYear - 70) * 365 + (tmYear - 69) / 4 - (tmYear - 1) / 100 + (tmYear + 299) / 400
  }

  /** Days before each month of a common year. */
  const CUMULATIVE: seq<nat> := [0, 31, 59, 90, 120, 151, 181, 212, 243, 273, 304, 334, 365]

  /** `tm_yday`, the day of the year counted from 0. */
  function YearDay(d: Date): int
    requires 1 <= d.month <= 12
  {
    CUMULATIVE[d.month - 1] + (if d.month > 2 && IsLeap(d.year) then 1 else 0) + d.day - 1
  }

  /** "Seconds Since the Epoch", section 4.16 of POSIX.1-2017 Base Definitions. */
  function PosixSeconds(d: Date): int
    requires 1 <= d.month <= 12
  {
    var tmYear, tmYday := d.year - 1900, YearDay(d);
    d.second + d.minute * 60 + d.hour * 3600 + tmYday * 86400 + (tmYear - 70) * 31536000
    + ((tmYear - 69) / 4) * 86400 - ((tmYear - 1) / 100) * 86400 + ((tmYear + 299) / 400) * 86400
  }

  function Leap(year: int, k: nat): int
    requires k > 0
  {
    if year % k == 0 then 1 else 0
  }

  /** Each quotient of the formula steps exactly in the years its divisor divides. */
  lemma {:induction false} FoursStep(year: nat)
    ensures (year + 1 - 1969) / 4 == (year - 1969) / 4 + Leap(year, 4)
  {
    var q, r := year / 4, year % 4;
    assert year - 1969 == 4 * (q - 492) + (r - 1);
  }

  lemma {:induction false} HundredsStep(year: nat)
    ensures (year + 1 - 1901) / 100 == (year - 1901) / 100 + Leap(year, 100)
  {
    var q, r := year / 100, year % 100;
    assert year - 1901 == 100 * (q - 19) + (r - 1);
  }

  lemma {:induction false} FourHundredsStep(year: nat)
    ensures (year + 1 - 1601) / 400 == (year - 1601) / 400 + Leap(year, 400)
  {
    var q, r := year / 400, year % 400;
    assert year - 1601 == 400 * (q - 4) + (r - 1);
  }

  lemma {:induction false} CenturiesAreFours(year: nat)
    requires year % 100 == 0
    ensures year % 4 == 0
  {
    var q, p, r := year / 100, year / 4, year % 4;
    assert year == 100 * q && year == 4 * p + r;
    assert r == 4 * (25 * q - p);
  }

  lemma {:induction false} FourCenturiesAreCenturies(year: nat)
    requires year % 400 == 0
    ensures year % 100 == 0
  {
    var q, p, r := year / 400, year / 100, year % 100;
    assert year == 400 * q && year == 100 * p + r;
    assert r == 100 * (4 * q - p);
  }

  lemma {:induction false} LeapSum(year: nat)
    ensures YearLength(year) == 365 + Leap(year, 4) - Leap(year, 100) + Leap(year, 400)
  {
    if year % 400 == 0 {
      FourCenturiesAreCenturies(year);
    }
    if year % 100 == 0 {
      CenturiesAreFours(year);
    }
  }

  lemma {:induction false} LeapStep(year: nat)
    ensures PosixDays(year + 1 - 1900, 0) == PosixDays(year - 1900, 0) + YearLength(year)
  {
    FoursStep(year);
    HundredsStep(year);
    FourHundredsStep(year);
    LeapSum(year);
  }

  lemma {:induction false} YearLoopIsClosed(year: nat)
    requires year >= 1970
    ensures DaysBeforeYear(year) == PosixDays(year - 1900, 0)
  {
    if year > 1970 {
      YearLoopIsClosed(year - 1);
      LeapStep(year - 1);
    }
  }

  lemma {:induction false} MonthTable(year: nat, month: nat)
    requires 1 <= month <= 13
    ensures DaysBeforeMonth(year, month) == CUMULATIVE[month - 1] + if month > 2 && IsLeap(year) then 1 else 0
  {
    if month > 1 { MonthTable(year, month - 1); }
  }

  /** On every valid date from 1970 on, the loops compute the POSIX formula. */
  lemma {:induction false} UnixIsPosix(d: Date)
    requires ValidDate(d)
    ensures ToUnix(d) == PosixSeconds(d)
  {
    YearLoopIsClosed(d.year);
    MonthTable(d.year, d.month);
  }

  // ---------------------------------------------------------------- order

  lemma {:induction false} MonthsFitYear(year: nat, month: nat)
    requires 1 <= month <= 13
    ensures DaysBeforeMonth(year, 13) == YearLength(year)
    ensures DaysBeforeMonth(year, month) <= DaysBeforeMonth(year, 13)
    decreases 13 - month
  {
    if month < 13 {
      MonthsFitYear(year, month + 1);
    } else {
      MonthTable(year, 13);
    }
  }

  lemma {:induction false} YearsGrow(a: nat, b: nat)
    requires 1970 <= a < b
    ensures DaysBeforeYear(a) + YearLength(a) <= DaysBeforeYear(b)
    decreases b
  {
    if a + 1 < b { YearsGrow(a, b - 1); }
  }

  lemma {:induction false} MonthsGrow(year: nat, a: nat, b: nat)
    requires 1 <= a < b <= 13
    ensures DaysBeforeMonth(year, a) + MonthDays(year, a) <= DaysBeforeMonth(year, b)
    decreases b
  {
    if a + 1 < b { MonthsGrow(year, a, b - 1); }
  }

  function DayNumber(d: Date): int
    requires 1 <= d.month <= 12
  {
    DaysBeforeYear(d.year) + DaysBeforeMonth(d.year, d.month) + d.day - 1
  }

  predicate DayBefore(a: Date, b: Date) {
    a.year < b.year || (a.year == b.year && (a.month < b.month || (a.month == b.month && a.day < b.day)))
  }

  /** Lexicographic order of (year, month, day, hour, minute, second). */
  predicate Before(a: Date, b: Date) {
    || DayBefore(a, b)
    || (a.year == b.year && a.month == b.month && a.day == b.day
        && (a.hour < b.hour || (a.hour == b.hour && (a.minute < b.minute || (a.minute == b.minute && a.second < b.second)))))
  }

  lemma {:induction false} DaysAreOrdered(a: Date, b: Date)
    requires ValidDate(a) && ValidDate(b) && DayBefore(a, b)
    ensures DayNumber(a) < DayNumber(b)
  {
    if a.year < b.year {
      YearsGrow(a.year, b.year);
      MonthsGrow(a.year, a.month, 13);
      MonthsFitYear(a.year, a.month);
    } else if a.month < b.month {
      MonthsGrow(a.year, a.month, b.month);
    }
  }

  /** The timestamp is strictly increasing in calendar order, hence no two dates share one. */
  lemma {:induction false} UnixIsOrdered(a: Date, b: Date)
    requires ValidDate(a) && ValidDate(b)
    ensures ToUnix(a) < ToUnix(b) <==> Before(a, b)
    ensures ToUnix(a) == ToUnix(b) ==> a == b
  {
    if DayBefore(a, b) { DaysAreOrdered(a, b); }
    if DayBefore(b, a) { DaysAreOrdered(b, a); }
  }

  /** Dates that are not valid: day 0 counts as day 1, month 0 as month 1, month 13 as the next January, years before 1970 as 1970 without its leap day. */
  lemma {:induction false} OddDates(d: Date)
    requires d.month <= 13
    ensures d.day == 0 ==> ToUnix(d) == ToUnix(d.(day := 1))
    ensures d.month == 0 ==> ToUnix(d) == ToUnix(d.(month := 1))
    ensures d.month == 13 && d.year >= 1970 ==> ToUnix(d) == ToUnix(d.(year := d.year + 1, month := 1))
    ensures d.year < 1970 && (d.month <= 2 || !IsLeap(d.year)) ==> ToUnix(d) == ToUnix(d.(year := 1970))
  {
    if d.month == 13 { MonthsFitYear(d.year, 13); }
    if d.year < 1970 && d.month >= 1 && (d.month <= 2 || !IsLeap(d.year)) {
      MonthTable(d.year, d.month);
      MonthTable(1970, d.month);
    }
  }
}
