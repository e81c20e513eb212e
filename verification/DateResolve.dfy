/** What a month, a year or a weekday of a month leads to, in dates of the calendar. */
module DateResolve {
  import opened Wrappers
  import opened Calendar
  import opened DateLexer

  /** Day n is the d-th of month m of year y, or, in a month that has no d-th
      day, as many days into the month after it as it lacks. */
  predicate Lands(n: int, y: int, m: int, d: int) {
    1 <= m <= 12 &&
    CivilOf(n) == if d <= MonthLength(y, m) then Civil(y, m, d) else Civil(y, m + 1, d - MonthLength(y, m))
  }

  lemma DayLands(y: int, m: int, d: int)
    requires 1 <= m <= 12 && 1 <= d <= 31
    ensures Lands(DayOf(y, m, d), y, m, d)
  {
    hide DayOf, CivilOf, Leap;
    var len := MonthLength(y, m);
    if d <= len {
      DayIsCivil(y, m, d);
    } else {
      MonthsFollow(y, m);
      DaysAdd(y, m, d);
      DaysAdd(y, m, len);
      DaysAdd(y, m + 1, d - len);
      DayIsCivil(y, m + 1, d - len);
    }
  }

  /** The months a month without a year may be moved by: from the num-th one
      ahead or back, or, without a number, not more than six ahead; a month more
      than five before the current one in the year stays where it is. */
  predicate MonthsMoved(shift: int, num: int, diff: int) {
    if num > 0 then 12 * num - 11 <= shift <= 12 * num
    else if num < 0 then 12 * num <= shift <= 12 * num + 11
    else if diff > 6 then shift == diff - 12
    else shift == diff
  }

  /** The day of the month that a month without a year leads to. */
  lemma MonthMoved(f: Dates, month: int) returns (y: int)
    requires 1 <= month <= 12 && f.months.month == month
    ensures var c := CivilOf(f.rel);
      && MonthsMoved(12 * (y - c.year) + (month - c.month), f.months.num, month - c.month)
      && MonthMove(f).rel == DayOf(y, month, c.day)
  {
    hide CivilOf, DayOf, MonthLength;
    var c := CivilOf(f.rel);
    var diff, num := month - c.month, f.months.num;
    var shift := MonthShift(c.month, month, num);
    if num == 0 {
      ClosestMonthIff(month, c.month);
      ClosestIs(diff);
      y := if diff > 6 then c.year - 1 else c.year;
    } else {
      MonthShiftIff(c.month, month, num, shift);
      y := c.year + AdjustedMonths(c.month, month, num);
    }
    assert c.month + shift == 12 * (y - c.year) + month;
    WholeYears(c.year, y - c.year, month, c.day);
  }

  lemma ClosestIs(diff: int)
    requires -11 <= diff <= 11
    ensures ClosestMonth(diff) == if diff > 6 then diff - 12 else diff
  {
    assert diff + 5 >= 0 ==> (diff + 5) % 12 == if diff + 5 >= 12 then diff + 5 - 12 else diff + 5;
    assert diff + 5 < 0 ==> -(diff + 5) % 12 == -(diff + 5);
  }

  lemma WholeYears(y: int, k: int, m: int, d: int)
    requires 1 <= m <= 12
    ensures DayOf(y, 12 * k + m, d) == DayOf(y + k, m, d)
  {
    hide YearStart, MonthStart;
    assert (12 * k + m - 1) / 12 == k && (12 * k + m - 1) % 12 == m - 1;
    assert (m - 1) / 12 == 0 && (m - 1) % 12 == m - 1;
  }

  /** A month alone leads to that month, the months moved being those the count
      asks for, and keeps the day of the month; a day it lacks runs over. */
  lemma MonthAlone(f: Dates) returns (y: int)
    requires 1 <= f.months.month <= 12
    ensures var (c, r) := (CivilOf(f.rel), Resolved({HaveMonths}, f));
      && r.Some? && Lands(r.value.rel, y, f.months.month, c.day)
      && MonthsMoved(12 * (y - c.year) + (f.months.month - c.month), f.months.num, f.months.month - c.month)
  {
    hide CivilOf, DayOf, MonthMove, Lands, MonthsMoved;
    y := MonthMoved(f, f.months.month);
    DayOfMonth(f.rel);
    DayLands(y, f.months.month, CivilOf(f.rel).day);
  }

  lemma DayOfMonth(n: int)
    ensures 1 <= CivilOf(n).month <= 12 && 1 <= CivilOf(n).day <= 31
  {
    hide CivilOf, Leap;
  }

  /** A month of a year keeps the day of the month. */
  lemma MonthOfYear(f: Dates)
    requires 1 <= f.months.month <= 12
    ensures var r := Resolved({HaveMyear, HaveMonths}, f);
      r.Some? && Lands(r.value.rel, f.months.year, f.months.month, CivilOf(f.rel).day)
  {
    hide CivilOf, DayOf, Lands;
    DayOfMonth(f.rel);
    DayLands(f.months.year, f.months.month, CivilOf(f.rel).day);
  }

  /** A year alone, whichever way it was given, keeps month and day; 29 February
      becomes 1 March where the year is no leap year. */
  lemma YearAlone(f: Dates)
    ensures var (c, m, d) := (CivilOf(f.rel), Resolved({HaveMyear}, f), Resolved({HaveDyear}, f));
      && m.Some? && Lands(m.value.rel, f.months.year, c.month, c.day)
      && d.Some? && Lands(d.value.rel, f.days.year, c.month, c.day)
  {
    hide CivilOf, DayOf, Lands;
    var c := CivilOf(f.rel);
    DayOfMonth(f.rel);
    DayLands(f.months.year, c.month, c.day);
    DayLands(f.days.year, c.month, c.day);
  }

  /** A weekday of a month without a year, or of the current month if none was
      given: the one asked for, counted from the day before the first of that
      month, or of the month after it if that month lacks today's day. */
  lemma WeekdayOfMonth(f: Dates) returns (y: int)
    requires 0 <= f.months.month <= 12
    ensures var (c, r) := (CivilOf(f.rel), Resolved({HaveMonths, HaveDays}, f));
      var m := if f.months.month == 0 then c.month else f.months.month;
      && 1 <= m <= 12 && r.Some?
      && MonthsMoved(12 * (y - c.year) + (m - c.month), f.months.num, m - c.month)
      && var from := DayOf(y, if c.day <= MonthLength(y, m) then m else m + 1, 0);
        && Weekday(r.value.rel) == f.days.day && InWindow(r.value.rel - from, f.days.num)
        && (f.days.num > 0 ==> r.value.rel > from && Occurrences(from, r.value.rel - from, f.days.day) == f.days.num)
  {
    hide CivilOf, DayOf, MonthMove, MonthsMoved, Weekday, InWindow, Occurrences, Resolved, MonthLength;
    var c, g := CivilOf(f.rel), WithMonth(f);
    DayOfMonth(f.rel);
    y := MonthMoved(g, g.months.month);
    RunsOver(y, g.months.month, c.day);
    ResolvesIff({HaveMonths, HaveDays}, f);
    ResolvedWeekday({HaveMonths, HaveDays}, f);
    assert CountedFrom({HaveMonths, HaveDays}, f) == ToMonthStart(MonthMove(g)).rel;
  }

  /** A weekday alone, of a year, or of a month of a year: counted from today, or
      from the day before the first of the year or month. */
  lemma WeekdayElsewhere(f: Dates, dmy: set<Flag>)
    requires dmy in {{HaveDays}, {HaveDyear, HaveDays}, {HaveMyear, HaveMonths, HaveDays}}
    ensures var r := Resolved(dmy, f);
      var from := if dmy == {HaveDays} then f.rel
                  else if dmy == {HaveDyear, HaveDays} then DayOf(f.days.year, 1, 0)
                  else DayOf(f.months.year, f.months.month, 0);
      && r.Some? && Weekday(r.value.rel) == f.days.day && InWindow(r.value.rel - from, f.days.num)
      && (f.days.num > 0 ==> r.value.rel > from && Occurrences(from, r.value.rel - from, f.days.day) == f.days.num)
  {
    hide CivilOf, DayOf, MonthMove, Weekday, InWindow, Occurrences, Resolved, ToMonthStart;
    assert HaveDays in dmy && HaveDyear !in {HaveDays} && HaveMyear !in {HaveDays} && HaveMonths !in {HaveDays};
    assert HaveDyear in {HaveDyear, HaveDays} && HaveDyear !in {HaveMyear, HaveMonths, HaveDays};
    assert HaveMyear in {HaveMyear, HaveMonths, HaveDays};
    ResolvesIff(dmy, f);
    ResolvedWeekday(dmy, f);
  }

  /** What resolves at all: not nothing, no year of a day beside a month, and no
      year of a month beside a weekday unless the month is there, too. */
  lemma ResolvesIff(dmy: set<Flag>, f: Dates)
    ensures Resolved(dmy, f).Some? <==>
      && dmy != {} && HaveDate !in dmy
      && (HaveDyear in dmy ==> HaveMyear !in dmy && HaveMonths !in dmy)
      && (HaveMyear in dmy && HaveDays in dmy ==> HaveMonths in dmy)
  {
    hide DayOf, CivilOf, DayMove, MonthMove, WithMonth, ToMonthStart;
    FlagSet(dmy);
  }

  /** A set of flags is what it has of the five. */
  lemma FlagSet(dmy: set<Flag>)
    ensures dmy == (if HaveDate in dmy then {HaveDate} else {}) + (if HaveDays in dmy then {HaveDays} else {})
      + (if HaveDyear in dmy then {HaveDyear} else {}) + (if HaveMonths in dmy then {HaveMonths} else {})
      + (if HaveMyear in dmy then {HaveMyear} else {})
  {
    forall x | x in dmy
      ensures x == HaveDate || x == HaveDays || x == HaveDyear || x == HaveMonths || x == HaveMyear
    {
    }
  }

  /** The calendar repeats every 400 years of 146097 days. */
  lemma FourHundredYears(y: int, m: int, d: int)
    requires 1 <= m <= 12
    ensures DayOf(y + 400, m, d) == DayOf(y, m, d) + 146_097
    ensures Weekday(DayOf(y + 400, m, d)) == Weekday(DayOf(y, m, d))
  {
    hide YearStart, MonthStart;
    DayInRange(y, m, d);
    DayInRange(y + 400, m, d);
    Quotients(y - 1);
    SameMonths(y, m);
    assert 146_097 % 7 == 0;
  }

  lemma Quotients(n: int)
    ensures YearStart(n + 1 + 400) == YearStart(n + 1) + 146_097
  {
    assert (n + 400) / 4 == n / 4 + 100 && (n + 400) / 100 == n / 100 + 4 && (n + 400) / 400 == n / 400 + 1;
  }

  lemma {:induction false} SameMonths(y: int, m: int)
    requires 1 <= m <= 13
    ensures MonthStart(y + 400, m) == MonthStart(y, m)
    decreases m
  {
    hide Leap;
    if m > 1 {
      SameMonths(y, m - 1);
      SameLeap(y);
    }
  }

  lemma SameLeap(y: int)
    ensures Leap(y + 400) == Leap(y)
  {
    assert (y + 400) % 4 == y % 4;
    assert (y + 400) % 100 == y % 100;
    assert (y + 400) % 400 == y % 400;
  }

  /** 1 January 1970 was a Thursday, 719162 days after the first day of year 1. */
  lemma Epoch()
    ensures DayOf(1, 1, 1) == 0 && DayOf(1970, 1, 1) == 719_162 && Weekday(DayOf(1970, 1, 1)) == 4
    ensures DayOf(2000, 3, 1) - DayOf(2000, 2, 28) == 2 && DayOf(1900, 3, 1) - DayOf(1900, 2, 28) == 1
  {
    hide MonthStart, YearStart;
    DayInRange(1, 1, 1);
    DayInRange(1970, 1, 1);
    FirstMonth(1);
    FirstMonth(1970);
    MonthsFollow(2000, 2);
    MonthsFollow(1900, 2);
    DaysAdd(2000, 2, 28);
    DaysAdd(2000, 2, 1);
    DaysAdd(1900, 2, 28);
    DaysAdd(1900, 2, 1);
    assert YearStart(1) == 0 && YearStart(1970) == 719_162 by { YearStarts(); }
  }

  lemma YearStarts()
    ensures YearStart(1) == 0 && YearStart(1970) == 719_162
  {
  }

  lemma FirstMonth(y: int)
    ensures MonthStart(y, 1) == 0
  {
  }
}
