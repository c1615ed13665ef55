/** The logger's calendar arithmetic against the Gregorian calendar. */
module Calendar {

  datatype Date = Date(year: int, month: int, day: int)

  // ---------------------------------------------------------------- the Gregorian calendar

  predicate IsLeap(year: int) {
    year % 4 == 0 && (year % 100 != 0 || year % 400 == 0)
  }

  function MonthLength(year: int, month: int): int {
    if month == 2 then (if IsLeap(year) then 29 else 28)
    else if month == 4 || month == 6 || month == 9 || month == 11 then 30
    else 31
  }

  predicate IsDate(d: Date) {
    1 <= d.month <= 12 && 1 <= d.day <= MonthLength(d.year, d.month)
  }

  function NextDay(d: Date): Date {
    if d.day < MonthLength(d.year, d.month) then Date(d.year, d.month, d.day + 1)
    else if d.month < 12 then Date(d.year, d.month + 1, 1)
    else Date(d.year + 1, 1, 1)
  }

  predicate Earlier(a: Date, b: Date) {
    a.year < b.year || (a.year == b.year && (a.month < b.month || (a.month == b.month && a.day < b.day)))
  }

  // ---------------------------------------------------------------- the logger's formulas

  const EPOCH_SHIFT := 719468
  const ERA := 146097

  /** Years since March of year 0 of the era, from the day of the era. */
  function YearOfEra(doe: nat): nat {
    (doe - doe / 1460 + doe / 36524 - doe / 146096) / 365
  }

  /** The date part of `format_timestamp`. */
  function DateOfDay(n: nat): Date {
    var days := n + EPOCH_SHIFT;
    var era := days / ERA;
    var doe := days - era * ERA;
    var yoe := YearOfEra(doe);
    var doy := doe - (365 * yoe + yoe / 4 - yoe / 100);
    MarchDate(yoe + era * 400, doy)
  }

  /** The date of day `doy` of the year that starts on the first of March of `y`. */
  function MarchDate(y: int, doy: int): Date {
    var mp := (5 * doy + 2) / 153;
    var d := doy - (153 * mp + 2) / 5 + 1;
    var m := if mp < 10 then mp + 3 else mp - 9;
    Date(if m <= 2 then y + 1 else y, m, d)
  }

  /** The arithmetic of `parse_date_to_epoch_days`. Only years from 1970 on reach it. */
  function DayOfDate(date: Date): int {
    var y := if date.month <= 2 then date.year - 1 else date.year;
    var era := y / 400;
    var yoe := y - era * 400;
    var m := if date.month > 2 then date.month - 3 else date.month + 9;
    var doy := (153 * m + 2) / 5 + date.day - 1;
    var doe := yoe * 365 + yoe / 4 - yoe / 100 + doy;
    era * ERA + doe - EPOCH_SHIFT
  }

  // ---------------------------------------------------------------- years within an era

  /** The first day of the era's year `k`. */
  function YearStart(k: nat): nat {
    365 * k + k / 4 - k / 100
  }

  /** How long the year from March of `k` is: it ends with February of `k + 1`. */
  function MarchYearLength(k: int): int {
    if IsLeap(k + 1) then 366 else 365
  }

  /** The era's years by centuries, four-year cycles and years. */
  lemma YearStartByCycles(c: nat, q: nat, a: nat)
    requires q < 25 && a < 4
    ensures YearStart(100 * c + 4 * q + a) == 36524 * c + 1461 * q + 365 * a
  {
    var k := 100 * c + 4 * q + a;
    assert k / 4 == 25 * c + q;
    assert k / 100 == c;
  }

  /** The corrections of `YearOfEra` cancel the leap days. */
  lemma YearOfEraByCycles(c: nat, q: nat, t: nat)
    requires c < 4 && q < 25 && t <= 1460 && 1461 * q + t < 36524
    ensures YearOfEra(36524 * c + 1461 * q + t) == 100 * c + 4 * q + if t == 1460 then 3 else t / 365
  {
    var doe := 36524 * c + 1461 * q + t;
    var e := if 24 * c + q + t >= 1460 then 1 else 0;
    assert doe / 1460 == 25 * c + q + e;
    assert doe / 36524 == c;
    assert doe / 146096 == 0;
    var a := if t == 1460 then 3 else t / 365;
    assert (36500 * c + 1460 * q + t - e) / 365 == 100 * c + 4 * q + a;
  }

  lemma YearOfCyclesLength(c: nat, q: nat, t: nat)
    requires c < 4 && q < 25 && t <= 1460 && 1461 * q + t < 36524
    ensures var a := if t == 1460 then 3 else t / 365;
            365 * a <= t < 365 * a + MarchYearLength(100 * c + 4 * q + a)
  {
    if t == 1460 {
      var next := 100 * c + 4 * q + 4;
      assert next % 4 == 0 && next / 100 == c;
    }
  }

  lemma LastDayOfEra()
    ensures YearOfEra(146096) == 399 && YearStart(399) + 365 == 146096 && IsLeap(400)
  {
  }

  lemma YearStartZero()
    ensures YearStart(0) == 0
  {
  }

  /** `YearOfEra` finds the year whose days include `doe`. */
  lemma YearOfEraIsYear(doe: nat)
    requires doe < ERA
    ensures var k := YearOfEra(doe); k < 400 && YearStart(k) <= doe < YearStart(k) + MarchYearLength(k)
  {
    hide IsLeap, YearOfEra, YearStart;
    if doe == 146096 {
      LastDayOfEra();
    } else {
      var c, r := doe / 36524, doe % 36524;
      var q, t := r / 1461, r % 1461;
      YearOfEraByCycles(c, q, t);
      YearStartByCycles(c, q, if t == 1460 then 3 else t / 365);
      YearOfCyclesLength(c, q, t);
    }
  }

  lemma YearStartNext(k: nat)
    requires k < 400
    ensures YearStart(k) + MarchYearLength(k) == if k == 399 then ERA else YearStart(k + 1)
  {
  }

  /** The years of an era do not overlap. */
  lemma YearIsUnique(doe: nat, k: nat)
    requires doe < ERA && k < 400 && YearStart(k) <= doe < YearStart(k) + MarchYearLength(k)
    ensures YearOfEra(doe) == k
  {
    var j := YearOfEra(doe);
    YearOfEraIsYear(doe);
    YearStartNext(k);
    YearStartNext(j);
  }

  // ---------------------------------------------------------------- days within a year

  lemma Mod4Repeats(y: int, x: int)
    ensures (y + 4 * x) % 4 == y % 4
  {
  }

  lemma Mod100Repeats(y: int, x: int)
    ensures (y + 100 * x) % 100 == y % 100
  {
  }

  lemma Mod400Repeats(y: int, x: int)
    ensures (y + 400 * x) % 400 == y % 400
  {
  }

  lemma LeapRepeats(y: int, era: int)
    ensures IsLeap(y + 400 * era) == IsLeap(y)
  {
    Mod4Repeats(y, 100 * era);
    Mod100Repeats(y, 4 * era);
    Mod400Repeats(y, era);
  }

  /** Within a year from March every day is followed by its calendar successor. */
  lemma MarchDateIsCalendar(y: int, doy: int)
    requires 0 <= doy < MarchYearLength(y)
    ensures IsDate(MarchDate(y, doy))
    ensures NextDay(MarchDate(y, doy)) == if doy + 1 < MarchYearLength(y) then MarchDate(y, doy + 1) else MarchDate(y + 1, 0)
  {
    var mp := (5 * doy + 2) / 153;
    assert 0 <= mp <= 11;
    assert mp == 0 || mp == 1 || mp == 2 || mp == 3 || mp == 4 || mp == 5 || mp == 6 || mp == 7 || mp == 8 || mp == 9 || mp == 10 || mp == 11;
  }

  /** What `DateOfDay` computes, in terms of an era, a year of the era and a day of the year. */
  lemma DateOfDayParts(n: nat) returns (era: nat, k: nat, doy: nat)
    ensures k < 400 && doy < MarchYearLength(k) && n + EPOCH_SHIFT == era * ERA + YearStart(k) + doy
    ensures DateOfDay(n) == MarchDate(k + 400 * era, doy)
  {
    var days := n + EPOCH_SHIFT;
    era := days / ERA;
    k := YearOfEra(days - era * ERA);
    YearOfEraIsYear(days - era * ERA);
    doy := days - era * ERA - YearStart(k);
  }

  lemma DateFromParts(n: nat, era: nat, k: nat, doy: nat)
    requires k < 400 && doy < MarchYearLength(k) && n + EPOCH_SHIFT == era * ERA + YearStart(k) + doy
    ensures DateOfDay(n) == MarchDate(k + 400 * era, doy)
  {
    hide IsLeap, MarchDate, YearOfEra;
    var doe := YearStart(k) + doy;
    assert doe < ERA by {
      YearStartNext(k);
      if k < 399 { YearStartBelowEra(k + 1); }
    }
    assert (n + EPOCH_SHIFT) / ERA == era;
    YearIsUnique(doe, k);
  }

  lemma YearStartBelowEra(k: nat)
    requires k < 400
    ensures YearStart(k) < ERA
  {
  }

  /** The date of every day is a date of the Gregorian calendar, and the next day has the next date. */
  lemma DatesFollowTheCalendar(n: nat)
    ensures IsDate(DateOfDay(n))
    ensures DateOfDay(n + 1) == NextDay(DateOfDay(n))
  {
    hide DateOfDay, NextDay, IsDate, IsLeap, MarchDate, YearStart;
    assert YearStart(0) == 0 by { YearStartZero(); }
    var era, k, doy := DateOfDayParts(n);
    LeapRepeats(k + 1, era);
    MarchDateIsCalendar(k + 400 * era, doy);
    if doy + 1 < MarchYearLength(k) {
      DateFromParts(n + 1, era, k, doy + 1);
    } else {
      YearStartNext(k);
      if k < 399 {
        DateFromParts(n + 1, era, k + 1, 0);
      } else {
        DateFromParts(n + 1, era + 1, 0, 0);
      }
    }
  }

  lemma EpochIsDayZero()
    ensures DateOfDay(0) == Date(1970, 1, 1)
  {
  }

  lemma DayOfMarchDate(era: nat, k: nat, doy: nat)
    requires k < 400 && doy < MarchYearLength(k)
    ensures DayOfDate(MarchDate(k + 400 * era, doy)) == era * ERA + YearStart(k) + doy - EPOCH_SHIFT
  {
    var date := MarchDate(k + 400 * era, doy);
    var mp := (5 * doy + 2) / 153;
    assert 0 <= mp <= 11;
    assert (if date.month > 2 then date.month - 3 else date.month + 9) == mp;
    assert (if date.month <= 2 then date.year - 1 else date.year) == k + 400 * era;
    assert (k + 400 * era) / 400 == era;
  }

  /** The two formulas are inverse to each other. */
  lemma DayOfDateOfDay(n: nat)
    ensures DayOfDate(DateOfDay(n)) == n
  {
    var era, k, doy := DateOfDayParts(n);
    DayOfMarchDate(era, k, doy);
  }

  // ---------------------------------------------------------------- order

  lemma NextDayIsLater(a: Date, d: Date)
    requires IsDate(d) && (a == d || Earlier(a, d))
    ensures Earlier(a, NextDay(d)) && IsDate(NextDay(d))
  {
  }

  /** Later days have later dates. */
  lemma {:induction false} DatesIncrease(a: nat, b: nat)
    requires a < b
    ensures Earlier(DateOfDay(a), DateOfDay(b))
    decreases b
  {
    hide DateOfDay, NextDay, IsDate;
    DatesFollowTheCalendar(b - 1);
    if a < b - 1 {
      DatesIncrease(a, b - 1);
    }
    NextDayIsLater(DateOfDay(a), DateOfDay(b - 1));
  }

  /** Every date of the calendar from 1970 on is the date of its day. */
  lemma {:induction false} EveryDateIsReached(d: Date)
    requires IsDate(d) && d.year >= 1970
    ensures DayOfDate(d) >= 0 && DateOfDay(DayOfDate(d)) == d
  {
    var y := if d.month <= 2 then d.year - 1 else d.year;
    var m := if d.month > 2 then d.month - 3 else d.month + 9;
    var era, k := y / 400, y % 400;
    var doy := (153 * m + 2) / 5 + d.day - 1;
    LeapRepeats(k + 1, era);
    assert y == k + 400 * era;
    MarchDayOfDate(y, d, m, doy);
    DayIsAfterEpoch(era, k, doy, d);
    DateFromParts(DayOfDate(d), era, k, doy);
  }

  lemma MarchDayOfDate(y: int, d: Date, m: int, doy: int)
    requires IsDate(d) && y == (if d.month <= 2 then d.year - 1 else d.year)
    requires m == (if d.month > 2 then d.month - 3 else d.month + 9) && doy == (153 * m + 2) / 5 + d.day - 1
    ensures 0 <= doy < MarchYearLength(y) && MarchDate(y, doy) == d
  {
    assert 0 <= m <= 11;
    assert m == 0 || m == 1 || m == 2 || m == 3 || m == 4 || m == 5 || m == 6 || m == 7 || m == 8 || m == 9 || m == 10 || m == 11;
  }

  lemma DayIsAfterEpoch(era: nat, k: nat, doy: nat, d: Date)
    requires k < 400 && d.year >= 1970 && k + 400 * era == (if d.month <= 2 then d.year - 1 else d.year)
    requires doy == (153 * (if d.month > 2 then d.month - 3 else d.month + 9) + 2) / 5 + d.day - 1 && IsDate(d)
    ensures era * ERA + YearStart(k) + doy >= EPOCH_SHIFT
  {
    assert k + 400 * era >= 1969;
    if era == 4 {
      assert k >= 369 && k / 4 >= 92 && k / 100 == 3;
      assert YearStart(k) >= 365 * k + 89;
      if k == 369 {
        assert d.month <= 2 && doy >= 306;
      }
    } else {
      assert era >= 5;
    }
  }

  /** The last day of year 9999. */
  const LAST_DAY := 2932896

  lemma DayAfterTheLast()
    ensures DateOfDay(LAST_DAY + 1) == Date(10000, 1, 1)
  {
  }

  lemma FourDigitYears(n: nat)
    ensures DateOfDay(n).year < 10000 <==> n <= LAST_DAY
    ensures DateOfDay(n).year >= 1970
  {
    hide DateOfDay, MonthLength, NextDay;
    DayAfterTheLast();
    DatesFollowTheCalendar(n);
    if n <= LAST_DAY {
      DatesIncrease(n, LAST_DAY + 1);
    } else if n > LAST_DAY + 1 {
      DatesIncrease(LAST_DAY + 1, n);
    }
    EpochIsDayZero();
    if n > 0 {
      DatesIncrease(0, n);
    }
  }
}
