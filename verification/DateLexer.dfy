/** Resolving week dates and weekdays relative to a date. */
module DateLexer {
  import opened Wrappers
  import opened Calendar

  type weekday = d: int | 0 <= d < 7

  /** The num-th given weekday, possibly of a year. */
  datatype RelDays = RelDays(day: weekday, num: int, year: int)

  datatype RelMonths = RelMonths(month: int, num: int, year: int)

  datatype Flag = HaveDate | HaveDays | HaveDyear | HaveMonths | HaveMyear

  /** "this Friday" means the coming one, "next Friday" always the coming one,
      "last Friday" always the one before. */
  function Adjusted(base: int, day: weekday, num: int): int {
    var diff := day - Weekday(base);
    if diff < 0 && num <= 0 then num + 1
    else if diff > 0 && num > 0 then num - 1
    else num
  }

  function Shift(base: int, day: weekday, num: int): int {
    Adjusted(base, day, num) * 7 + (day - Weekday(base))
  }

  /** The seven days in which the num-th weekday is to be found. */
  predicate InWindow(shift: int, num: int) {
    if num > 0 then 7 * num - 6 <= shift <= 7 * num
    else if num == 0 then 0 <= shift <= 6
    else 7 * num <= shift <= 7 * num + 6
  }

  /** The shift is the only one in its window that leads to the weekday. */
  lemma ShiftIff(base: int, day: weekday, num: int, shift: int)
    ensures shift == Shift(base, day, num) <==> InWindow(shift, num) && Weekday(base + shift) == day
  {
    var s := Shift(base, day, num);
    assert Weekday(base + s) == day;
    if InWindow(shift, num) && Weekday(base + shift) == day {
      if s < shift {
        WeekdayPeriod(base + s, shift - s);
      } else if shift < s {
        WeekdayPeriod(base + shift, s - shift);
      }
    }
  }

  /** Counting from the day before the first, the num-th weekday is the num-th one. */
  lemma ShiftIsNth(from: int, day: weekday, num: int)
    requires num > 0
    ensures Shift(from, day, num) > 0 && Occurrences(from, Shift(from, day, num), day) == num
  {
    hide Shift, Occurrences, Weekday;
    var s := Shift(from, day, num);
    ShiftIff(from, day, num, s);
    NthOccurrence(from, s, num, day);
  }

  /** The num-th weekday of a month is in that month just when the month has that many. */
  lemma NthInMonthIff(y: int, m: int, day: weekday, num: int)
    requires 1 <= m <= 12 && num > 0
    ensures DayOf(y, m, 1) <= DayOf(y, m, 0) + Shift(DayOf(y, m, 0), day, num) < DayOf(y, m + 1, 1) <==>
      Occurrences(DayOf(y, m, 0), MonthLength(y, m), day) >= num
  {
    var from := DayOf(y, m, 0);
    assert from == DayOf(y, m, 1) - 1;
    MonthsFollow(y, m);
    hide Shift, Occurrences, Weekday, DayOf;
    var s := Shift(from, day, num);
    ShiftIff(from, day, num, s);
    NthWithin(from, s, num, MonthLength(y, m), day);
  }

  /** The remainder of a division that truncates towards zero. */
  function Rem(a: int, b: int): int
    requires b > 0
  {
    if a >= 0 then a % b else -(-a % b)
  }

  /** The months from the current month to the one that "this March" is taken for. */
  function ClosestMonth(diff: int): int {
    Rem(diff + 5, 12) - 5
  }

  /** "This March" is meant to be at most five months back and six ahead. That
      holds just when the month is not more than five before the current one in
      the year; otherwise the difference is left as it is. */
  lemma ClosestMonthIff(month: int, current: int)
    requires 1 <= month <= 12 && 1 <= current <= 12
    ensures -5 <= ClosestMonth(month - current) <= 6 <==> month - current >= -5
    ensures month - current < -5 ==> ClosestMonth(month - current) == month - current
    ensures (current + ClosestMonth(month - current) - month) % 12 == 0
  {
    var d := month - current + 5;
    assert d >= 0 ==> d % 12 == if d >= 12 then d - 12 else d;
    assert d < 0 ==> -d % 12 == -d;
  }

  /** What resolving a date works on: the day, the weekday and the month asked for. */
  datatype Dates = Dates(rel: int, days: RelDays, months: RelMonths)

  /** The day moves to the num-th given weekday, and the count is kept adjusted. */
  function DayMove(f: Dates): Dates {
    f.(rel := f.rel + Shift(f.rel, f.days.day, f.days.num),
       days := f.days.(num := Adjusted(f.rel, f.days.day, f.days.num)))
  }

  /** The count of a month: "next March" and "last March" count the nearest one. */
  function AdjustedMonths(current: int, month: int, num: int): int {
    var diff := month - current;
    if diff < 0 && num < 0 then num + 1
    else if diff > 0 && num > 0 then num - 1
    else num
  }

  /** By how many months the date moves. */
  function MonthShift(current: int, month: int, num: int): int {
    if num == 0 then ClosestMonth(month - current)
    else AdjustedMonths(current, month, num) * 12 + (month - current)
  }

  /** The day moves by whole months; a day the month does not have runs over. */
  function MonthMove(f: Dates): Dates {
    var c := CivilOf(f.rel);
    f.(rel := DayOf(c.year, c.month + MonthShift(c.month, f.months.month, f.months.num), c.day),
       months := f.months.(num := AdjustedMonths(c.month, f.months.month, f.months.num)))
  }

  /** To the day before the first of the day's month. */
  function ToMonthStart(f: Dates): Dates {
    f.(rel := DayOf(CivilOf(f.rel).year, CivilOf(f.rel).month, 0))
  }

  /** Where a combination of flags leads; some lead nowhere. */
  function Resolved(dmy: set<Flag>, f: Dates): Option<Dates> {
    var c := CivilOf(f.rel);
    if dmy == {HaveMyear, HaveMonths} then Some(f.(rel := DayOf(f.months.year, f.months.month, c.day)))
    else if dmy == {HaveDyear, HaveDays} then Some(DayMove(f.(rel := DayOf(f.days.year, 1, 0))))
    else if dmy == {HaveMyear, HaveMonths, HaveDays} then Some(DayMove(f.(rel := DayOf(f.months.year, f.months.month, 0))))
    else if dmy == {HaveDays} then Some(DayMove(f))
    else if dmy == {HaveMonths} then Some(MonthMove(f))
    else if dmy == {HaveMonths, HaveDays} then Some(DayMove(ToMonthStart(MonthMove(WithMonth(f)))))
    else if dmy == {HaveMyear} then Some(f.(rel := DayOf(f.months.year, c.month, c.day)))
    else if dmy == {HaveDyear} then Some(f.(rel := DayOf(f.days.year, c.month, c.day)))
    else None
  }

  /** The month that is meant: the current one if none was given. */
  function WithMonth(f: Dates): Dates {
    if f.months.month == 0 then f.(months := f.months.(month := CivilOf(f.rel).month)) else f
  }

  /** Moving by days: the only day in its window that is the weekday asked for. */
  lemma DayMoveIs(f: Dates)
    ensures InWindow(DayMove(f).rel - f.rel, f.days.num) && Weekday(DayMove(f).rel) == f.days.day
    ensures f.days.num > 0 ==>
      DayMove(f).rel > f.rel && Occurrences(f.rel, DayMove(f).rel - f.rel, f.days.day) == f.days.num
  {
    hide Shift, Adjusted, Weekday, Occurrences;
    var s := Shift(f.rel, f.days.day, f.days.num);
    ShiftIff(f.rel, f.days.day, f.days.num, s);
    if f.days.num > 0 {
      ShiftIsNth(f.rel, f.days.day, f.days.num);
    }
  }

  /** Where a day is counted from: the year, the month of a year, or the current date. */
  function CountedFrom(dmy: set<Flag>, f: Dates): int {
    if HaveDyear in dmy then DayOf(f.days.year, 1, 0)
    else if HaveMyear in dmy then DayOf(f.months.year, f.months.month, 0)
    else if HaveMonths in dmy then ToMonthStart(MonthMove(WithMonth(f))).rel
    else f.rel
  }

  /** A weekday that was asked for is always what comes out, in its window counted
      from there; and the num-th one counted from day 1 is the num-th one. */
  lemma ResolvedWeekday(dmy: set<Flag>, f: Dates)
    requires HaveDays in dmy && Resolved(dmy, f).Some?
    ensures var (to, from) := (Resolved(dmy, f).value.rel, CountedFrom(dmy, f));
      && Weekday(to) == f.days.day && InWindow(to - from, f.days.num)
      && (f.days.num > 0 ==> to > from && Occurrences(from, to - from, f.days.day) == f.days.num)
  {
    hide DayOf, CivilOf, Weekday, Occurrences, InWindow, DayMove, MonthMove;
    var from := CountedFrom(dmy, f);
    if HaveDyear in dmy || HaveMyear in dmy || HaveMonths !in dmy {
      DayMoveIs(f.(rel := from));
    } else {
      DayMoveIs(ToMonthStart(MonthMove(WithMonth(f))));
      MonthKeepsDays(WithMonth(f));
    }
  }

  lemma MonthKeepsDays(f: Dates)
    ensures MonthMove(f).days == f.days
  {
    hide CivilOf, DayOf;
  }

  /** For a nonzero count the shift is the only one in its window that leads to the month. */
  lemma MonthShiftIff(current: int, month: int, num: int, shift: int)
    requires 1 <= month <= 12 && 1 <= current <= 12 && num != 0
    ensures shift == MonthShift(current, month, num) <==>
      (if num > 0 then 12 * num - 11 <= shift <= 12 * num else 12 * num <= shift <= 12 * num + 11)
      && (current + shift - month) % 12 == 0
  {
    var s := MonthShift(current, month, num);
    var k := AdjustedMonths(current, month, num);
    assert current + s - month == 12 * k;
    var q, r := (current + shift - month) / 12, (current + shift - month) % 12;
    assert current + shift - month == 12 * q + r;
  }

  /** The month that a shift leads to. */
  function Target(rel: int, shift: int): (int, int) {
    var c := CivilOf(rel);
    (c.year + (c.month + shift - 1) / 12, (c.month + shift - 1) % 12 + 1)
  }

  /** Counting weekdays of a month without a year: they are counted in the month
      that is meant if and only if that month has today's day of the month;
      otherwise the move by months runs over and they are counted in the month after it. */
  lemma CountedInMonthIff(f: Dates)
    ensures var g := WithMonth(f);
      var (y, m) := Target(f.rel, MonthShift(CivilOf(f.rel).month, g.months.month, g.months.num));
      && 1 <= m <= 12
      && CountedFrom({HaveMonths, HaveDays}, f)
         == (if CivilOf(f.rel).day <= MonthLength(y, m) then DayOf(y, m, 0) else DayOf(y, m + 1, 0))
      && (CountedFrom({HaveMonths, HaveDays}, f) == DayOf(y, m, 0) <==> CivilOf(f.rel).day <= MonthLength(y, m))
  {
    hide CivilOf, DayOf, MonthShift, Leap;
    var g, c := WithMonth(f), CivilOf(f.rel);
    var shift := MonthShift(c.month, g.months.month, g.months.num);
    var (y, m) := Target(f.rel, shift);
    Normalized(c.year, c.month + shift, c.day);
    RunsOver(y, m, c.day);
    MonthsFollow(y, m);
    DaysAdd(y, m, MonthLength(y, m));
  }

  lemma Normalized(y: int, m: int, d: int)
    ensures DayOf(y, m, d) == DayOf(y + (m - 1) / 12, (m - 1) % 12 + 1, d)
  {
    hide YearStart, MonthStart;
    var m' := (m - 1) % 12;
    assert m' / 12 == 0 && m' % 12 == m';
  }

  /** On 31 January a weekday of February is looked for in March. */
  lemma FebruaryOn31January(y: int, days: RelDays)
    ensures var f := Dates(DayOf(y, 1, 31), days, RelMonths(2, 0, 0));
      CountedFrom({HaveMonths, HaveDays}, f) == DayOf(y, 3, 0)
  {
    var f := Dates(DayOf(y, 1, 31), days, RelMonths(2, 0, 0));
    hide DayOf, CivilOf;
    DayIsCivil(y, 1, 31);
    CountedInMonthIff(f);
  }

  class DateState {
    var states: set<Flag>
    var errors: seq<string>
    var date: int
    var rel: int
    var days: RelDays
    var months: RelMonths

    /** Reports whether a flag was set, and sets it. */
    method State(f: Flag) returns (was: bool)
      modifies `states
      ensures was <==> f in old(states)
      ensures states == old(states) + {f}
    {
      was := f in states;
      states := states + {f};
    }

    method SetDate(y: int, m: int, d: int)
      modifies `states, `errors, `date
      ensures states == old(states) + {HaveDate}
      ensures if HaveDate in old(states) then date == old(date) && errors == old(errors) + ["Parsed two dates"]
              else date == DayOf(y, m, d) && errors == old(errors)
    {
      var was := State(HaveDate);
      if was {
        errors := errors + ["Parsed two dates"];
        return;
      }
      date := DayOf(y, m, d);
    }

    /** setWeek: the date is the day with the given ISO week date, if there is one. */
    method SetWeek(year: int, week: int, wday: int)
      modifies `states, `errors, `date
      ensures states == old(states) + {HaveDate}
      ensures HaveDate in old(states) ==> date == old(date) && errors == old(errors) + ["Parsed two dates"]
      ensures HaveDate !in old(states) ==>
        && errors == old(errors)
        && date == DayOf(year, 1, OrdinalOf(year, week, wday))
        && (IsoDate(date, year, week, wday) <==> LegalWeek(year, week, wday))
    {
      var jan4 := Weekday(DayOf(year, 1, 4));
      if jan4 == 0 {
        jan4 := 7;
      }
      var ord := week * 7 + wday - jan4 - 3;
      assert ord == OrdinalOf(year, week, wday);
      hide *;
      WeekDateIff(DayOf(year, 1, ord), year, week, wday);
      SetDate(year, 1, ord);
    }

    /** dayOffset: the date moves to the num-th given weekday. */
    method DayOffset()
      modifies `rel, `days
      ensures Dates(rel, days, months) == DayMove(old(Dates(rel, days, months)))
      ensures InWindow(rel - old(rel), old(days).num) && Weekday(rel) == old(days).day
    {
      ghost var was, num := rel, days.num;
      var diff := days.day - Weekday(rel);
      if diff < 0 && days.num <= 0 {
        days := days.(num := days.num + 1);
      } else if diff > 0 && days.num > 0 {
        days := days.(num := days.num - 1);
      }
      rel := rel + (days.num * 7 + diff);
      assert rel - was == Shift(was, days.day, num);
      assert Dates(rel, days, months) == DayMove(old(Dates(rel, days, months)));
      hide *;
      assert was + (rel - was) == rel;
      ShiftIff(was, days.day, num, rel - was);
    }

    /** monthOffset: the date moves by whole months. */
    method MonthOffset()
      modifies `rel, `months
      ensures Dates(rel, days, months) == MonthMove(old(Dates(rel, days, months)))
    {
      var c := CivilOf(rel);
      var diff := months.month - c.month;
      if months.num == 0 {
        diff := Rem(diff + 5, 12) - 5;
        rel := DayOf(c.year, c.month + diff, c.day);
        return;
      }
      if diff < 0 && months.num < 0 {
        months := months.(num := months.num + 1);
      } else if diff > 0 && months.num > 0 {
        months := months.(num := months.num - 1);
      }
      rel := DayOf(c.year, c.month + (months.num * 12 + diff), c.day);
    }

    /** resolveDMY; it panics on combinations of flags that nothing resolves. */
    method ResolveDMY() returns (ok: bool)
      modifies `rel, `days, `months
      ensures ok <==> Resolved(states - {HaveDate}, old(Dates(rel, days, months))).Some?
      ensures ok ==> Some(Dates(rel, days, months)) == Resolved(states - {HaveDate}, old(Dates(rel, days, months)))
    {
      hide DayOf, CivilOf, MonthMove, Adjusted, Shift, Weekday;
      var dmy := states - {HaveDate};
      var c := CivilOf(rel);
      ok := true;
      if dmy == {HaveMyear, HaveMonths} {
        rel := DayOf(months.year, months.month, c.day);
      } else if dmy == {HaveDyear, HaveDays} {
        rel := DayOf(days.year, 1, 0);
        DayOffset();
      } else if dmy == {HaveMyear, HaveMonths, HaveDays} {
        rel := DayOf(months.year, months.month, 0);
        DayOffset();
      } else if dmy == {HaveDays} {
        DayOffset();
      } else if dmy == {HaveMonths} {
        MonthOffset();
      } else if dmy == {HaveMonths, HaveDays} {
        if months.month == 0 {
          months := months.(month := c.month);
        }
        MonthOffset();
        var c' := CivilOf(rel);
        rel := DayOf(c'.year, c'.month, 0);
        DayOffset();
      } else if dmy == {HaveMyear} {
        rel := DayOf(months.year, c.month, c.day);
      } else if dmy == {HaveDyear} {
        rel := DayOf(days.year, c.month, c.day);
      } else {
        ok := false;
      }
    }
  }
}
