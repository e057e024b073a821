/**
 * The proleptic Gregorian calendar as Go's time package uses it: civil
 * dates, the length of each month, stepping a day at a time, and the day of
 * the week. Weekdays are numbered as time.Weekday numbers them, Sunday 0
 * through Saturday 6.
 */
module Calendar {
  datatype Date = Date(year: int, month: int, day: int)

  /** A point in time at whole-second precision, in UTC. */
  datatype Moment = Moment(date: Date, hour: int, minute: int, second: int)

  const DaysPerWeek: int := 7

  predicate IsLeap(y: int) {
    y % 4 == 0 && (y % 100 != 0 || y % 400 == 0)
  }

  function YearLength(y: int): int {
    if IsLeap(y) then 366 else 365
  }

  /** The number of days in month m (1 to 12) of year y. */
  function DaysIn(y: int, m: int): (n: int)
    requires 1 <= m <= 12
    ensures 28 <= n <= 31
    ensures n == 29 <==> m == 2 && IsLeap(y)
  {
    if m == 2 then (if IsLeap(y) then 29 else 28)
    else if m == 4 || m == 6 || m == 9 || m == 11 then 30
    else 31
  }

  predicate Valid(d: Date) {
    1 <= d.month <= 12 && 1 <= d.day <= DaysIn(d.year, d.month)
  }

  /** The day after d. */
  function NextDay(d: Date): (r: Date)
    requires Valid(d)
    ensures Valid(r)
  {
    if d.day < DaysIn(d.year, d.month) then Date(d.year, d.month, d.day + 1)
    else if d.month < 12 then Date(d.year, d.month + 1, 1)
    else Date(d.year + 1, 1, 1)
  }

  /** The day before d. */
  function PrevDay(d: Date): (r: Date)
    requires Valid(d)
    ensures Valid(r)
  {
    if d.day > 1 then Date(d.year, d.month, d.day - 1)
    else if d.month > 1 then Date(d.year, d.month - 1, DaysIn(d.year, d.month - 1))
    else Date(d.year - 1, 12, 31)
  }

  /** n days after d (before it when n is negative), one day at a time: AddDate(0, 0, n). */
  function AddDays(d: Date, n: int): (r: Date)
    requires Valid(d)
    ensures Valid(r)
    decreases if n < 0 then -n else n
  {
    if n == 0 then d
    else if n > 0 then AddDays(NextDay(d), n - 1)
    else AddDays(PrevDay(d), n + 1)
  }

  /** The days from 0001-01-01 to January 1 of year y. */
  function DaysBeforeYear(y: int): int
    decreases if y < 1 then 1 - y else y - 1
  {
    if y == 1 then 0
    else if y > 1 then DaysBeforeYear(y - 1) + YearLength(y - 1)
    else DaysBeforeYear(y + 1) - YearLength(y)
  }

  /** The days from January 1 to the first of month m. */
  function DaysBeforeMonth(y: int, m: int): int
    requires 1 <= m <= 12
  {
    if m == 1 then 0 else DaysBeforeMonth(y, m - 1) + DaysIn(y, m - 1)
  }

  /** The days from 0001-01-01 to d. */
  function DayNumber(d: Date): int
    requires 1 <= d.month <= 12
  {
    DaysBeforeYear(d.year) + DaysBeforeMonth(d.year, d.month) + d.day - 1
  }

  /** 0001-01-01 is a Monday in the proleptic Gregorian calendar. */
  function Weekday(d: Date): (w: int)
    requires 1 <= d.month <= 12
    ensures 0 <= w < DaysPerWeek
  {
    WeekdayOf(DayNumber(d))
  }

  /** The weekday of day number n. */
  function WeekdayOf(n: int): (w: int)
    ensures 0 <= w < DaysPerWeek
  {
    (n + 1) % DaysPerWeek
  }

  /** December 31 ends the year: the month lengths add up to the year's length. */
  lemma YearOfMonths(y: int)
    ensures DaysBeforeMonth(y, 12) + DaysIn(y, 12) == YearLength(y)
  {
    var feb := DaysIn(y, 2);
    assert DaysBeforeMonth(y, 2) == 31;
    assert DaysBeforeMonth(y, 3) == 31 + feb;
    assert DaysBeforeMonth(y, 4) == 62 + feb;
    assert DaysBeforeMonth(y, 5) == 92 + feb;
    assert DaysBeforeMonth(y, 6) == 123 + feb;
    assert DaysBeforeMonth(y, 7) == 153 + feb;
    assert DaysBeforeMonth(y, 8) == 184 + feb;
    assert DaysBeforeMonth(y, 9) == 215 + feb;
    assert DaysBeforeMonth(y, 10) == 245 + feb;
    assert DaysBeforeMonth(y, 11) == 276 + feb;
    assert DaysBeforeMonth(y, 12) == 306 + feb;
  }

  lemma YearStep(y: int)
    ensures DaysBeforeYear(y + 1) == DaysBeforeYear(y) + YearLength(y)
  {
  }

  /** NextDay and PrevDay move the day number by exactly one. */
  lemma NextDayNumber(d: Date)
    requires Valid(d)
    ensures DayNumber(NextDay(d)) == DayNumber(d) + 1
  {
    if d.day == DaysIn(d.year, d.month) && d.month == 12 {
      YearOfMonths(d.year);
      YearStep(d.year);
    }
  }

  lemma PrevDayNumber(d: Date)
    requires Valid(d)
    ensures DayNumber(PrevDay(d)) == DayNumber(d) - 1
  {
    if d.day == 1 && d.month == 1 {
      YearOfMonths(d.year - 1);
      YearStep(d.year - 1);
    }
  }

  /** Stepping n days moves the day number by n. */
  lemma {:induction false} AddDaysNumber(d: Date, n: int)
    requires Valid(d)
    ensures DayNumber(AddDays(d, n)) == DayNumber(d) + n
    decreases if n < 0 then -n else n
  {
    if n > 0 {
      NextDayNumber(d);
      AddDaysNumber(NextDay(d), n - 1);
    } else if n < 0 {
      PrevDayNumber(d);
      AddDaysNumber(PrevDay(d), n + 1);
    }
  }

  /** Stepping n days advances the weekday by n, modulo a week. */
  lemma AddDaysWeekday(d: Date, n: int)
    requires Valid(d)
    ensures Weekday(AddDays(d, n)) == (Weekday(d) + n) % DaysPerWeek
  {
    AddDaysNumber(d, n);
    WeekShift(DayNumber(d), n);
  }

  lemma WeekShift(a: int, n: int)
    ensures WeekdayOf(a + n) == (WeekdayOf(a) + n) % DaysPerWeek
  {
    var q := (a + 1) / DaysPerWeek;
    assert a + 1 + n == ((a + 1) % DaysPerWeek + n) + DaysPerWeek * q;
  }

  /** Two steps of a and b days make one of a + b days. */
  lemma {:induction false} AddDaysAdd(d: Date, a: nat, b: nat)
    requires Valid(d)
    ensures AddDays(AddDays(d, a), b) == AddDays(d, a + b)
    decreases a
  {
    if a > 0 {
      AddDaysAdd(NextDay(d), a - 1, b);
    }
  }

  /** Within a month, stepping k days from the first lands on day k + 1. */
  lemma {:induction false} AddDaysInMonth(y: int, m: int, k: nat)
    requires 1 <= m <= 12 && k < DaysIn(y, m)
    ensures AddDays(Date(y, m, 1), k) == Date(y, m, k + 1)
  {
    if k > 0 {
      AddDaysInMonth(y, m, k - 1);
      AddDaysAdd(Date(y, m, 1), k - 1, 1);
    }
  }

  /**
   * time.Date(y, m, d) for a month in 1..12 and a day d >= 1: the first of the
   * month, moved on d - 1 days, so that a day past the month's end carries
   * into the next month.
   */
  function Normalize(y: int, m: int, d: int): (r: Date)
    requires 1 <= m <= 12 && 1 <= d
    ensures Valid(r)
  {
    AddDays(Date(y, m, 1), d - 1)
  }

  /**
   * Normalization keeps the day and month exactly when the day exists in
   * that month; a day up to 31 past the end carries into the next month.
   */
  lemma NormalizeKeeps(y: int, m: int, d: int)
    requires 1 <= m <= 12 && 1 <= d <= 31
    ensures var r := Normalize(y, m, d);
      (r.day == d && r.month == m) <==> d <= DaysIn(y, m)
  {
    var n := DaysIn(y, m);
    if d <= n {
      AddDaysInMonth(y, m, d - 1);
    } else {
      AddDaysInMonth(y, m, n - 1);
      AddDaysAdd(Date(y, m, 1), n - 1, 1);
      var first := NextDay(Date(y, m, n));
      assert first.day == 1 && first.month != m;
      var next := if m < 12 then m + 1 else 1;
      var ny := if m < 12 then y else y + 1;
      assert first == Date(ny, next, 1);
      AddDaysInMonth(ny, next, d - n - 1);
      AddDaysAdd(Date(y, m, 1), n, d - n - 1);
    }
  }

  /**
   * nextWeekday's step count: days until weekday wd, counting today as 0
   * unless skipToday, when a match today means a full week.
   */
  function NextOffset(refWd: int, wd: int, skipToday: bool): (days: int)
    requires 0 <= refWd < DaysPerWeek && 0 <= wd < DaysPerWeek
    ensures 0 <= days <= DaysPerWeek
    ensures days == DaysPerWeek <==> skipToday && wd == refWd
    ensures (refWd + days) % DaysPerWeek == wd
  {
    var days := wd - refWd;
    var days := if days < 0 then days + DaysPerWeek else days;
    if days == 0 && skipToday then DaysPerWeek else days
  }

  /** prevWeekday's step count back to weekday wd, never 0: a match today means a week ago. */
  function PrevOffset(refWd: int, wd: int): (days: int)
    requires 0 <= refWd < DaysPerWeek && 0 <= wd < DaysPerWeek
    ensures 1 <= days <= DaysPerWeek
    ensures (refWd - days) % DaysPerWeek == wd
  {
    var days := refWd - wd;
    if days <= 0 then days + DaysPerWeek else days
  }

  /** nextWeekday: the next day falling on wd, today included unless skipToday; at midnight. */
  function NextWeekday(ref: Date, wd: int, skipToday: bool): Date
    requires Valid(ref) && 0 <= wd < DaysPerWeek
  {
    AddDays(ref, NextOffset(Weekday(ref), wd, skipToday))
  }

  /** prevWeekday: the most recent day before ref falling on wd; at midnight. */
  function PrevWeekday(ref: Date, wd: int): Date
    requires Valid(ref) && 0 <= wd < DaysPerWeek
  {
    AddDays(ref, -PrevOffset(Weekday(ref), wd))
  }

  /** A weekday plus fewer steps than the offset to wd does not reach wd. */
  lemma NextOffsetFirst(w: int, wd: int, skipToday: bool, k: int)
    requires 0 <= w < DaysPerWeek && 0 <= wd < DaysPerWeek
    requires (if skipToday then 1 else 0) <= k < NextOffset(w, wd, skipToday)
    ensures (w + k) % DaysPerWeek != wd
  {
    if w + k >= DaysPerWeek {
      assert (w + k) % DaysPerWeek == w + k - DaysPerWeek;
    }
  }

  /** A weekday minus fewer steps than the offset back to wd does not reach wd. */
  lemma PrevOffsetLast(w: int, wd: int, k: int)
    requires 0 <= w < DaysPerWeek && 0 <= wd < DaysPerWeek
    requires 1 <= k < PrevOffset(w, wd)
    ensures (w - k) % DaysPerWeek != wd
  {
    if w - k < 0 {
      assert (w - k) % DaysPerWeek == w - k + DaysPerWeek;
    }
  }

  /**
   * The next weekday falls on wd, and it is the first such day: no day
   * before it (from today, or from tomorrow when skipToday) falls on wd.
   */
  lemma NextWeekdayFirst(ref: Date, wd: int, skipToday: bool)
    requires Valid(ref) && 0 <= wd < DaysPerWeek
    ensures Weekday(NextWeekday(ref, wd, skipToday)) == wd
    ensures forall k :: (if skipToday then 1 else 0) <= k < NextOffset(Weekday(ref), wd, skipToday) ==> Weekday(AddDays(ref, k)) != wd
  {
    var w := Weekday(ref);
    var off := NextOffset(w, wd, skipToday);
    AddDaysWeekday(ref, off);
    NextDaysMiss(ref, w, wd, skipToday);
  }

  lemma NextDaysMiss(ref: Date, w: int, wd: int, skipToday: bool)
    requires Valid(ref) && 0 <= wd < DaysPerWeek && w == Weekday(ref)
    ensures forall k :: (if skipToday then 1 else 0) <= k < NextOffset(w, wd, skipToday) ==> Weekday(AddDays(ref, k)) != wd
  {
    forall k | (if skipToday then 1 else 0) <= k < NextOffset(w, wd, skipToday) ensures Weekday(AddDays(ref, k)) != wd {
      NextOffsetFirst(w, wd, skipToday, k);
      DayMiss(ref, w, wd, k);
    }
  }

  /** k days on from a day on weekday w, a day whose weekday is not wd when (w + k) mod 7 is not. */
  lemma DayMiss(ref: Date, w: int, wd: int, k: int)
    requires Valid(ref) && w == Weekday(ref) && (w + k) % DaysPerWeek != wd
    ensures Weekday(AddDays(ref, k)) != wd
  {
    AddDaysWeekday(ref, k);
  }

  /** The previous weekday falls on wd, 1 to 7 days back, and no day between it and ref does. */
  lemma PrevWeekdayLast(ref: Date, wd: int)
    requires Valid(ref) && 0 <= wd < DaysPerWeek
    ensures Weekday(PrevWeekday(ref, wd)) == wd
    ensures forall k :: -PrevOffset(Weekday(ref), wd) < k <= -1 ==> Weekday(AddDays(ref, k)) != wd
  {
    var w := Weekday(ref);
    var off := PrevOffset(w, wd);
    AddDaysWeekday(ref, -off);
    PrevDaysMiss(ref, w, wd);
  }

  lemma PrevDaysMiss(ref: Date, w: int, wd: int)
    requires Valid(ref) && 0 <= wd < DaysPerWeek && w == Weekday(ref)
    ensures forall k :: -PrevOffset(w, wd) < k <= -1 ==> Weekday(AddDays(ref, k)) != wd
  {
    forall k | -PrevOffset(w, wd) < k <= -1 ensures Weekday(AddDays(ref, k)) != wd {
      PrevOffsetLast(w, wd, -k);
      DayMiss(ref, w, wd, k);
    }
  }
}
