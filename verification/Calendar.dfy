/**
 * The proleptic Gregorian calendar behind JavaScript's UTC date functions.
 * A day is a number of days since 1970-01-01; a month is `12 * year + month`
 * with January as month 0; an instant is a number of milliseconds.
 */
module Calendar {

  const MS_PER_DAY := 86_400_000

  // Days from 0000-01-01 to 1970-01-01.
  const EPOCH := 719_528

  predicate IsLeap(year: int) {
    year % 4 == 0 && (year % 100 != 0 || year % 400 == 0)
  }

  function DaysBeforeYear(year: int): int {
    365 * year + (year + 3) / 4 - (year + 99) / 100 + (year + 399) / 400
  }

  function DaysBeforeMonth(month: int, leap: bool): int
    requires 0 <= month < 12
  {
    [0, 31, 59, 90, 120, 151, 181, 212, 243, 273, 304, 334][month] + if leap && month >= 2 then 1 else 0
  }

  /** The first day of a month. */
  function MonthStart(month: int): int {
    DaysBeforeYear(month / 12) + DaysBeforeMonth(month % 12, IsLeap(month / 12)) - EPOCH
  }

  function MonthLength(month: int): int {
    MonthStart(month + 1) - MonthStart(month)
  }

  /** The month lengths printed on every calendar. */
  function LengthOnCalendar(month: int, leap: bool): int
    requires 0 <= month < 12
  {
    if month == 1 then (if leap then 29 else 28)
    else if month == 3 || month == 5 || month == 8 || month == 10 then 30
    else 31
  }

  lemma MonthLengths(month: int)
    ensures MonthLength(month) == LengthOnCalendar(month % 12, IsLeap(month / 12))
    ensures 28 <= MonthLength(month) <= 31
  {
    var y, m := month / 12, month % 12;
    if m == 11 {
      assert (month + 1) / 12 == y + 1 && (month + 1) % 12 == 0;
      YearLength(y);
    } else {
      assert (month + 1) / 12 == y && (month + 1) % 12 == m + 1;
    }
  }

  lemma YearLength(y: int)
    ensures DaysBeforeYear(y + 1) - DaysBeforeYear(y) == if IsLeap(y) then 366 else 365
  {
    assert (y + 4) / 4 - (y + 3) / 4 == if y % 4 == 0 then 1 else 0;
    assert (y + 100) / 100 - (y + 99) / 100 == if y % 100 == 0 then 1 else 0;
    assert (y + 400) / 400 - (y + 399) / 400 == if y % 400 == 0 then 1 else 0;
  }

  lemma {:induction false} MonthStartIncreases(a: int, b: int)
    requires a < b
    ensures MonthStart(a) < MonthStart(b)
    decreases b - a
  {
    hide MonthStart;
    MonthLengths(b - 1);
    if a < b - 1 {
      MonthStartIncreases(a, b - 1);
    }
  }

  /** The month a day falls in; with DayOfMonth, what getUTCFullYear, getUTCMonth and getUTCDate read. */
  function MonthOf(day: int): (month: int)
    ensures MonthStart(month) <= day < MonthStart(month + 1)
  {
    hide MonthStart;
    if day < MonthStart(0) then SeekDown(day, 0) else SeekUp(day, 0)
  }

  function SeekDown(day: int, month: int): (r: int)
    requires day < MonthStart(month)
    ensures MonthStart(r) <= day < MonthStart(r + 1)
    decreases MonthStart(month) - day
  {
    hide MonthStart;
    MonthLengths(month - 1);
    if MonthStart(month - 1) <= day then month - 1 else SeekDown(day, month - 1)
  }

  function SeekUp(day: int, month: int): (r: int)
    requires MonthStart(month) <= day
    ensures MonthStart(r) <= day < MonthStart(r + 1)
    decreases day - MonthStart(month)
  {
    hide MonthStart;
    MonthLengths(month);
    if day < MonthStart(month + 1) then month else SeekUp(day, month + 1)
  }

  function DayOfMonth(day: int): (d: int)
    ensures 1 <= d <= MonthLength(MonthOf(day))
  {
    hide MonthStart;
    day - MonthStart(MonthOf(day)) + 1
  }

  /** No two months share a day. */
  lemma MonthOfIsUnique(day: int, month: int)
    requires MonthStart(month) <= day < MonthStart(month + 1)
    ensures MonthOf(day) == month
  {
    hide MonthStart;
    if MonthOf(day) < month {
      if MonthOf(day) + 1 < month { MonthStartIncreases(MonthOf(day) + 1, month); }
    } else if month < MonthOf(day) {
      if month + 1 < MonthOf(day) { MonthStartIncreases(month + 1, MonthOf(day)); }
    }
  }

  /** Date.UTC(year, month, date) as a day; years 0 to 99 mean 1900 to 1999. */
  function Utc(year: int, month: int, date: int): int {
    var fullYear := if 0 <= year <= 99 then 1900 + year else year;
    MonthStart(12 * fullYear + month) + date - 1
  }

  /** Date.prototype.setUTCMonth: a day past the target month's end rolls into the next month. */
  function AddMonths(instant: int, months: int): int {
    var day := instant / MS_PER_DAY;
    MS_PER_DAY * (MonthStart(MonthOf(day) + months) + DayOfMonth(day) - 1) + instant % MS_PER_DAY
  }

  lemma AddMonthsMovesForward(instant: int, months: int)
    requires months >= 1
    ensures AddMonths(instant, months) > instant
  {
    hide MonthStart;
    MonthStartIncreases(MonthOf(instant / MS_PER_DAY), MonthOf(instant / MS_PER_DAY) + months);
  }

  predicate IsDigit(c: char) { '0' <= c <= '9' }

  function Digits(s: string): int
    requires forall i :: 0 <= i < |s| ==> IsDigit(s[i])
  {
    if s == [] then 0 else 10 * Digits(s[..|s| - 1]) + (s[|s| - 1] as int - '0' as int)
  }

  /** The pattern dddd-dd-dd. */
  predicate IsIsoShape(s: string) {
    && |s| == 10 && s[4] == '-' && s[7] == '-'
    && forall i :: 0 <= i < 10 && i != 4 && i != 7 ==> IsDigit(s[i])
  }

  function YearOf(s: string): int requires IsIsoShape(s) { Digits(s[..4]) }

  function MonthIn(s: string): int requires IsIsoShape(s) { Digits(s[5..7]) }

  function DateIn(s: string): int requires IsIsoShape(s) { Digits(s[8..]) }

  /** An ISO date is valid when the day it builds reads back as the same year, month and date. */
  predicate IsIsoDate(s: string) {
    IsIsoShape(s) && ReadsBack(YearOf(s), MonthIn(s) - 1, DateIn(s))
  }

  predicate ReadsBack(year: int, month: int, date: int) {
    var day := Utc(year, month, date);
    MonthOf(day) / 12 == year && MonthOf(day) % 12 == month && DayOfMonth(day) == date
  }

  /** Exactly the days on the calendar read back, except those of the years 0 to 99. */
  lemma ReadsBackIff(year: int, month: int, date: int)
    ensures ReadsBack(year, month, date) <==>
            && !(0 <= year <= 99) && 0 <= month < 12
            && 1 <= date <= LengthOnCalendar(month, IsLeap(year))
  {
    hide MonthStart;
    var day := Utc(year, month, date);
    if 0 <= month < 12 && !(0 <= year <= 99) {
      var m := 12 * year + month;
      assert m / 12 == year && m % 12 == month;
      MonthLengths(m);
      if 1 <= date <= MonthLength(m) {
        MonthOfIsUnique(day, m);
      }
    } else if 0 <= year <= 99 && 0 <= month < 12 {
      CenturyApart(year, month, date);
    }
  }

  // A date of the years 0 to 99 is built 1900 years too late.
  lemma CenturyApart(year: int, month: int, date: int)
    requires 0 <= year <= 99 && 0 <= month < 12
    ensures !ReadsBack(year, month, date)
  {
    hide MonthStart;
    var m := 12 * year + month;
    if MonthOf(Utc(year, month, date)) == m {
      MonthStartIncreases(m, m + 12 * 1900);
    }
  }
}
