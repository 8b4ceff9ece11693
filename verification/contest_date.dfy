/**
 * Date utilities of src/utils/contestDate.ts.
 *
 * A calendar date is (year, month 1..12, day); its day number counts days
 * from 0000-01-01 in the proleptic Gregorian calendar, which is the calendar
 * of ECMAScript time values (section 21.4.1 of ECMA-262). Local time is
 * modelled without a time-zone offset and without daylight-saving changes, so
 * every local day is exactly `MsPerDay` milliseconds long.
 */
module ContestDate {
  import opened Wrappers
  import opened Text

  // ----- the calendar -----------------------------------------------------

  datatype Date = Date(year: int, month: int, day: int)

  predicate IsLeapYear(y: int) {
    y % 4 == 0 && (y % 100 != 0 || y % 400 == 0)
  }

  function DaysInMonth(y: int, m: int): int
    requires 1 <= m <= 12
  {
    if m == 2 then (if IsLeapYear(y) then 29 else 28)
    else if m == 4 || m == 6 || m == 9 || m == 11 then 30
    else 31
  }

  function YearLength(y: int): int {
    if IsLeapYear(y) then 366 else 365
  }

  predicate IsValid(d: Date) {
    1 <= d.month <= 12 && 1 <= d.day <= DaysInMonth(d.year, d.month)
  }

  /** A date that exists in the calendar. */
  type ValidDate = d: Date | IsValid(d) witness Date(1970, 1, 1)

  /** Days from 0000-01-01 to January 1 of year `y` (negative before year 0). */
  function DaysBeforeYear(y: int): int {
    365 * y + (y + 3) / 4 - (y + 99) / 100 + (y + 399) / 400
  }

  /** Days from January 1 to the first day of month `m` of year `y`. */
  function DaysBeforeMonth(y: int, m: int): int
    requires 1 <= m <= 12
  {
    var common :=
      match m
      case 1 => 0   case 2 => 31  case 3 => 59   case 4 => 90
      case 5 => 120 case 6 => 151 case 7 => 181  case 8 => 212
      case 9 => 243 case 10 => 273 case 11 => 304 case _ => 334;
    common + (if m > 2 && IsLeapYear(y) then 1 else 0)
  }

  /** The day number of a date: days since 0000-01-01. */
  function DayNo(d: ValidDate): int {
    DaysBeforeYear(d.year) + DaysBeforeMonth(d.year, d.month) + d.day - 1
  }

  /** Floor division by `k` counts the multiples of `k` in `1..y + k`: it steps up exactly when `y` is a multiple. */
  lemma LeapCountStep(y: int, k: int)
    requires k == 4 || k == 100 || k == 400
    ensures (y + k) / k == (y + k - 1) / k + (if y % k == 0 then 1 else 0)
  {
    if k == 4 {
      assert (y + 4) / 4 == y / 4 + 1;
      assert (y + 3) / 4 == y / 4 + (if y % 4 == 0 then 0 else 1);
    } else if k == 100 {
      assert (y + 100) / 100 == y / 100 + 1;
      assert (y + 99) / 100 == y / 100 + (if y % 100 == 0 then 0 else 1);
    } else {
      assert (y + 400) / 400 == y / 400 + 1;
      assert (y + 399) / 400 == y / 400 + (if y % 400 == 0 then 0 else 1);
    }
  }

  /** Multiples of 400 are multiples of 100, which are multiples of 4. */
  lemma DivisorChain(y: int)
    ensures y % 400 == 0 ==> y % 100 == 0
    ensures y % 100 == 0 ==> y % 4 == 0
  {
    if y % 400 == 0 {
      var q := y / 400;
      assert y == 100 * (4 * q);
    }
    if y % 100 == 0 {
      var q := y / 100;
      assert y == 4 * (25 * q);
    }
  }

  lemma DaysBeforeYearStep(y: int)
    ensures DaysBeforeYear(y + 1) == DaysBeforeYear(y) + YearLength(y)
  {
    LeapCountStep(y, 4);
    LeapCountStep(y, 100);
    LeapCountStep(y, 400);
    DivisorChain(y);
    var n4, n100, n400 := (y + 3) / 4, (y + 99) / 100, (y + 399) / 400;
    assert DaysBeforeYear(y) == 365 * y + n4 - n100 + n400;
    assert DaysBeforeYear(y + 1) == 365 * y + 365 + (y + 4) / 4 - (y + 100) / 100 + (y + 400) / 400;
  }

  lemma DaysBeforeMonthStep(y: int, m: int)
    requires 1 <= m < 12
    ensures DaysBeforeMonth(y, m + 1) == DaysBeforeMonth(y, m) + DaysInMonth(y, m)
  {
  }

  lemma DaysBeforeMonthBounds(y: int, m: int)
    requires 1 <= m <= 12
    ensures DaysBeforeMonth(y, m) + DaysInMonth(y, m) <= YearLength(y)
    ensures m == 12 ==> DaysBeforeMonth(y, m) + DaysInMonth(y, m) == YearLength(y)
  {
  }

  /** The day after `d` (what `setDate(getDate() + 1)` produces). */
  function NextDay(d: ValidDate): (r: ValidDate)
    ensures DayNo(r) == DayNo(d) + 1
  {
    if d.day < DaysInMonth(d.year, d.month) then Date(d.year, d.month, d.day + 1)
    else if d.month < 12 then
      DaysBeforeMonthStep(d.year, d.month);
      Date(d.year, d.month + 1, 1)
    else
      DaysBeforeYearStep(d.year);
      Date(d.year + 1, 1, 1)
  }

  /** The day before `d`. */
  function PrevDay(d: ValidDate): (r: ValidDate)
    ensures DayNo(r) == DayNo(d) - 1
  {
    if d.day > 1 then Date(d.year, d.month, d.day - 1)
    else if d.month > 1 then
      DaysBeforeMonthStep(d.year, d.month - 1);
      Date(d.year, d.month - 1, DaysInMonth(d.year, d.month - 1))
    else
      DaysBeforeYearStep(d.year - 1);
      Date(d.year - 1, 12, 31)
  }

  /** The date `n` days after `d` (`n` may be negative): how a JS Date normalises an out-of-range day. */
  function AddDays(d: ValidDate, n: int): (r: ValidDate)
    ensures DayNo(r) == DayNo(d) + n
    decreases if n >= 0 then n else -n
  {
    if n == 0 then d
    else if n > 0 then AddDays(NextDay(d), n - 1)
    else AddDays(PrevDay(d), n + 1)
  }

  lemma {:induction false} DaysBeforeYearMonotone(a: int, b: int)
    requires a < b
    ensures DaysBeforeYear(a) + YearLength(a) <= DaysBeforeYear(b)
    decreases b - a
  {
    DaysBeforeYearStep(a);
    if a + 1 < b {
      DaysBeforeYearMonotone(a + 1, b);
    }
  }

  /** Dates in calendar order have increasing day numbers. */
  lemma DayNoOrdered(a: ValidDate, b: ValidDate)
    requires a.year < b.year
          || (a.year == b.year && a.month < b.month)
          || (a.year == b.year && a.month == b.month && a.day < b.day)
    ensures DayNo(a) < DayNo(b)
  {
    if a.year < b.year {
      DaysBeforeMonthBounds(a.year, a.month);
      DaysBeforeYearMonotone(a.year, b.year);
    } else if a.month < b.month {
      var m := a.month;
      while m < b.month - 1
        invariant a.month <= m < b.month
        invariant DaysBeforeMonth(a.year, a.month) + DaysInMonth(a.year, a.month) <= DaysBeforeMonth(a.year, m + 1)
      {
        DaysBeforeMonthStep(a.year, m + 1);
        m := m + 1;
      }
      DaysBeforeMonthStep(a.year, a.month);
    }
  }

  /** Distinct dates have distinct day numbers. */
  lemma DayNoInjective(a: ValidDate, b: ValidDate)
    requires DayNo(a) == DayNo(b)
    ensures a == b
  {
    if a != b {
      if a.year < b.year || (a.year == b.year && a.month < b.month)
         || (a.year == b.year && a.month == b.month && a.day < b.day) {
        DayNoOrdered(a, b);
      } else {
        DayNoOrdered(b, a);
      }
    }
  }

  /**
   * `new Date(y, m0, dd)` with a 0-based month: the month is normalised into
   * the year as ECMA-262 MakeDay does (floor division), then the day is
   * counted from the first of that month, so day 0 is the last day of the
   * month before.
   */
  function MakeDate(y: int, m0: int, dd: int): (r: ValidDate)
    ensures DayNo(r) == DayNo(Date(y + m0 / 12, m0 % 12 + 1, 1)) + dd - 1
  {
    AddDays(Date(y + m0 / 12, m0 % 12 + 1, 1), dd - 1)
  }

  /** `getDay()`: 0 is Sunday. 0000-01-01 was a Saturday. */
  function Weekday(d: ValidDate): (r: int)
    ensures 0 <= r < 7
  {
    (DayNo(d) + 6) % 7
  }

  /** The weekday advances by one, Saturday wrapping to Sunday, from each day to the next. */
  lemma WeekdayNext(d: ValidDate)
    ensures Weekday(NextDay(d)) == (Weekday(d) + 1) % 7
  {
    var n := DayNo(d) + 6;
    assert DayNo(NextDay(d)) + 6 == n + 1;
    SevenStep(n);
  }

  lemma SevenStep(n: int)
    ensures (n + 1) % 7 == (n % 7 + 1) % 7
  {
    var q := n / 7;
    assert n == 7 * q + n % 7;
    if n % 7 == 6 {
      assert n + 1 == 7 * (q + 1);
    } else {
      assert n + 1 == 7 * q + (n % 7 + 1);
    }
  }

  /** 1970-01-01, the start of ECMAScript time values, was a Thursday. */
  lemma EpochWeekday()
    ensures Weekday(Date(1970, 1, 1)) == 4
  {
  }

  // ----- time values ------------------------------------------------------

  const MsPerDay: int := 24 * 60 * 60 * 1000

  /** The day number of 1970-01-01, the origin of ECMAScript time values. */
  const EpochDayNo: int := DayNo(Date(1970, 1, 1))

  /** `getTime()` of local midnight at the start of `d`. */
  function TimeOf(d: ValidDate): int {
    (DayNo(d) - EpochDayNo) * MsPerDay
  }

  /** A JS `Date` read through its local fields: a calendar date and the milliseconds since its midnight. */
  datatype DateTime = DateTime(date: ValidDate, msOfDay: int)

  type LocalTime = t: DateTime | 0 <= t.msOfDay < MsPerDay witness DateTime(Date(1970, 1, 1), 0)

  function TimeValue(t: LocalTime): int {
    TimeOf(t.date) + t.msOfDay
  }

  lemma TimeOfOrder(a: ValidDate, b: ValidDate)
    ensures TimeOf(a) <= TimeOf(b) <==> DayNo(a) <= DayNo(b)
    ensures TimeOf(b) - TimeOf(a) == (DayNo(b) - DayNo(a)) * MsPerDay
  {
  }

  /** `startOfToday()`: the clock reading `now` truncated to local midnight. */
  function StartOfToday(now: LocalTime): (r: LocalTime)
    ensures r.date == now.date
    ensures TimeValue(r) <= TimeValue(now) < TimeValue(r) + MsPerDay
  {
    DateTime(now.date, 0)
  }

  // ----- text form ---------------------------------------------------------

  /** `s` has the shape `DDDD-DD-DD`. */
  predicate IsYmdShape(s: string) {
    && |s| == 10
    && AllDigits(s[..4]) && s[4] == '-'
    && AllDigits(s[5..7]) && s[7] == '-'
    && AllDigits(s[8..])
  }

  /**
   * `parseYmd(s)`: `new Date(s + "T00:00:00")`, or null. A missing or empty
   * string is null; otherwise the string must be `YYYY-MM-DD` naming a day
   * that exists.
   */
  function ParseYmd(s: Option<string>): (r: Option<ValidDate>)
    ensures s.None? || s == Some("") ==> r.None?
    ensures r.Some? ==> s.Some? && IsYmdShape(s.value)
  {
    match s
    case None => None
    case Some(t) =>
      if t == "" || !IsYmdShape(t) then None
      else
        var d := Date(DigitsValue(t[..4]), DigitsValue(t[5..7]), DigitsValue(t[8..]));
        if IsValid(d) then Some(d) else None
  }

  /** `ymd(d)`: `String(year)`, then month (1-based) and day zero-padded to two digits. */
  function Ymd(d: ValidDate): (r: string)
    ensures 1000 <= d.year <= 9999 ==>
      && IsYmdShape(r)
      && DigitsValue(r[..4]) == d.year
      && DigitsValue(r[5..7]) == d.month
      && DigitsValue(r[8..]) == d.day
  {
    var r := IntToString(d.year) + "-" + Pad2(d.month) + "-" + Pad2(d.day);
    if 1000 <= d.year <= 9999 then
      NatToStringLength(d.year);
      ValueOfNatToString(d.year);
      Pad2Value(d.month);
      Pad2Value(d.day);
      assert r[..4] == NatToString(d.year);
      assert r[5..7] == Pad2(d.month);
      assert r[8..] == Pad2(d.day);
      r
    else r
  }

  /**
   * Round trip between the two forms: a string whose year does not start with
   * '0' parses to `d` exactly when it is `ymd(d)` of a four-digit-year date.
   */
  lemma ParseYmdInverse(s: string, d: ValidDate)
    requires |s| > 0 && s[0] != '0'
    ensures ParseYmd(Some(s)) == Some(d) <==> s == Ymd(d) && 1000 <= d.year <= 9999
  {
    if ParseYmd(Some(s)) == Some(d) {
      NatToStringOfValue(s[..4]);
      FourDigitValue(s[..4]);
      Pad2Round(s[5..7]);
      Pad2Round(s[8..]);
      assert s == s[..4] + "-" + s[5..7] + "-" + s[8..];
    }
    if s == Ymd(d) && 1000 <= d.year <= 9999 {
      assert ParseYmd(Some(s)) == Some(d);
    }
  }

  /** `ymd` then `parseYmd` gives the date back for four-digit years. */
  lemma YmdThenParse(d: ValidDate)
    requires 1000 <= d.year <= 9999
    ensures ParseYmd(Some(Ymd(d))) == Some(d)
  {
  }

  // ----- days left ----------------------------------------------------------

  /**
   * `daysLeftTo(deadline, base)`: whole days from the local midnight of
   * `base` to the midnight the deadline names, `Math.floor` of the millisecond
   * difference over one day; null when the deadline does not parse.
   */
  function DaysLeftTo(deadline: Option<string>, base: LocalTime): (r: Option<int>)
    ensures r.None? <==> ParseYmd(deadline).None?
    ensures r.Some? ==> r.value == DayNo(ParseYmd(deadline).value) - DayNo(base.date)
  {
    match ParseYmd(deadline)
    case None => None
    case Some(end) =>
      var midnight := DateTime(base.date, 0);
      Some((TimeOf(end) - TimeValue(midnight)) / MsPerDay)
  }

  /** The time of day of the base does not matter. */
  lemma DaysLeftToIgnoresTimeOfDay(deadline: Option<string>, base: LocalTime, other: LocalTime)
    requires other.date == base.date
    ensures DaysLeftTo(deadline, other) == DaysLeftTo(deadline, base)
  {
  }

  /** One day later, one day fewer is left. */
  lemma DaysLeftToNextDay(deadline: Option<string>, base: LocalTime)
    ensures var later := DateTime(NextDay(base.date), base.msOfDay);
      && (DaysLeftTo(deadline, later).Some? <==> DaysLeftTo(deadline, base).Some?)
      && (DaysLeftTo(deadline, base).Some? ==>
            DaysLeftTo(deadline, later).value == DaysLeftTo(deadline, base).value - 1)
  {
  }

  /** Day `n` before the deadline gives `n`: D-7 is 7, D-day is 0, the day after is -1. */
  lemma DaysLeftToCountsDown(deadline: string, end: ValidDate, n: int, base: LocalTime)
    requires ParseYmd(Some(deadline)) == Some(end)
    requires base.date == AddDays(end, -n)
    ensures DaysLeftTo(Some(deadline), base) == Some(n)
  {
  }
}
