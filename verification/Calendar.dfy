/** The proleptic Gregorian calendar as day numbers; day 0 is Monday, 1 January of year 1. */
module Calendar {
  import opened Numerals

  predicate Leap(y: int) {
    y % 4 == 0 && (y % 100 != 0 || y % 400 == 0)
  }

  function YearStart(y: int): int {
    365 * (y - 1) + (y - 1) / 4 - (y - 1) / 100 + (y - 1) / 400
  }

  function MonthLength(y: int, m: int): int
    requires 1 <= m <= 12
  {
    if m == 2 then (if Leap(y) then 29 else 28)
    else if m in {4, 6, 9, 11} then 30
    else 31
  }

  /** Days of a year before its m-th month. */
  function MonthStart(y: int, m: int): int
    requires 1 <= m <= 13
    decreases m
  {
    if m == 1 then 0 else MonthStart(y, m - 1) + MonthLength(y, m - 1)
  }

  /** A date whose month and day may be out of range: they run over into the
      following or preceding months and years. */
  function DayOf(y: int, m: int, d: int): int {
    var y', m' := y + (m - 1) / 12, (m - 1) % 12 + 1;
    YearStart(y') + MonthStart(y', m') + d - 1
  }

  /** Sunday is 0. */
  function Weekday(n: int): int {
    (n + 1) % 7
  }

  /** A quotient grows by one at each multiple. */
  lemma QuotientStep(y: int, k: int)
    requires k > 1
    ensures y / k - (y - 1) / k == if y % k == 0 then 1 else 0
  {
    var q, r := (y - 1) / k, (y - 1) % k;
    DivModDefinition(y - 1, k);
    if r == k - 1 {
      Distribute(q, k);
      DivModUnique(y, k, q + 1, 0);
    } else {
      DivModUnique(y, k, q, r + 1);
    }
  }

  lemma Distribute(q: int, k: int)
    ensures (q + 1) * k == q * k + k
  {
  }

  lemma NestedCycles(y: int)
    ensures y % 400 == 0 ==> y % 100 == 0
    ensures y % 100 == 0 ==> y % 4 == 0
  {
    var a, b := y / 400, y / 100;
    if y % 400 == 0 {
      assert y == 100 * (4 * a);
      DivModUnique(y, 100, 4 * a, 0);
    }
    if y % 100 == 0 {
      assert y == 4 * (25 * b);
      DivModUnique(y, 4, 25 * b, 0);
    }
  }

  lemma LengthOfYear(y: int)
    ensures YearStart(y + 1) - YearStart(y) ==
      365 + (y / 4 - (y - 1) / 4) - (y / 100 - (y - 1) / 100) + (y / 400 - (y - 1) / 400)
  {
  }

  lemma YearLength(y: int)
    ensures YearStart(y + 1) - YearStart(y) == if Leap(y) then 366 else 365
  {
    hide YearStart;
    LengthOfYear(y);
    QuotientStep(y, 4);
    QuotientStep(y, 100);
    QuotientStep(y, 400);
    NestedCycles(y);
  }

  lemma TwelveMonths(y: int)
    ensures MonthStart(y, 13) == if Leap(y) then 366 else 365
  {
    hide Leap;
    assert MonthStart(y, 3) == 31 + MonthLength(y, 2);
    assert MonthStart(y, 6) == MonthStart(y, 3) + 92;
    assert MonthStart(y, 9) == MonthStart(y, 6) + 92;
    assert MonthStart(y, 11) == MonthStart(y, 9) + 61;
    assert MonthStart(y, 13) == MonthStart(y, 11) + 61;
  }

  /** The calendar has no gaps: a month starts where the month before it ends, and a year too. */
  lemma MonthsFollow(y: int, m: int)
    requires 1 <= m <= 12
    ensures DayOf(y, m + 1, 1) == DayOf(y, m, 1) + MonthLength(y, m)
    ensures DayOf(y, m + 1, 0) == DayOf(y, m, MonthLength(y, m))
  {
    hide Leap, YearStart;
    if m == 12 {
      TwelveMonths(y);
      YearLength(y);
      assert MonthStart(y, 13) == MonthStart(y, 12) + MonthLength(y, 12);
      assert m / 12 == 1 && m % 12 == 0;
    } else {
      assert m / 12 == 0 && m % 12 == m;
    }
    assert (m - 1) / 12 == 0 && (m - 1) % 12 == m - 1;
  }

  predicate InYear(n: int, y: int) {
    YearStart(y) <= n < YearStart(y + 1)
  }

  lemma {:induction false} YearsGrow(y: int, y': int)
    requires y <= y'
    ensures YearStart(y) <= YearStart(y')
    decreases y' - y
  {
    if y < y' {
      YearLength(y' - 1);
      YearsGrow(y, y' - 1);
    }
  }

  /** A day is in one year only. */
  lemma OneYear(n: int, y: int, y': int)
    requires InYear(n, y) && InYear(n, y')
    ensures y == y'
  {
    hide YearStart;
    if y < y' {
      YearsGrow(y + 1, y');
    } else if y' < y {
      YearsGrow(y' + 1, y);
    }
  }

  /** The year a day is in, looked for forwards from a year that is not too late. */
  function YearFrom(n: int, y: int): (r: int)
    requires YearStart(y) <= n
    ensures InYear(n, r)
    decreases n - YearStart(y)
  {
    YearLength(y);
    if n < YearStart(y + 1) then y else YearFrom(n, y + 1)
  }

  /** The same backwards, from a year that is not too early. */
  function YearBack(n: int, y: int): (r: int)
    requires n < YearStart(y + 1)
    ensures InYear(n, r)
    decreases YearStart(y + 1) - n
  {
    YearLength(y);
    if YearStart(y) <= n then y else YearBack(n, y - 1)
  }

  function YearOf(n: int): (y: int)
    ensures InYear(n, y)
  {
    if n >= 0 then YearFrom(n, 1) else YearBack(n, 0)
  }

  /** The month of the k-th day of a year, looked for from a month that is not too late. */
  function MonthFrom(y: int, k: int, m: int): (r: int)
    requires 1 <= m <= 12 && MonthStart(y, m) <= k < MonthStart(y, 13)
    ensures 1 <= r <= 12 && MonthStart(y, r) <= k < MonthStart(y, r + 1)
    decreases 12 - m
  {
    if m == 12 || k < MonthStart(y, m + 1) then m else MonthFrom(y, k, m + 1)
  }

  /** A date of the calendar. */
  datatype Civil = Civil(year: int, month: int, day: int) {
    predicate Valid() {
      1 <= month <= 12 && 1 <= day <= MonthLength(year, month)
    }
  }

  /** The date of a day. */
  function CivilOf(n: int): (c: Civil)
    ensures c.Valid()
  {
    var y := YearOf(n);
    YearLength(y);
    TwelveMonths(y);
    var k := n - YearStart(y);
    var m := MonthFrom(y, k, 1);
    Civil(y, m, k - MonthStart(y, m) + 1)
  }

  lemma DayInRange(y: int, m: int, d: int)
    requires 1 <= m <= 12
    ensures DayOf(y, m, d) == YearStart(y) + MonthStart(y, m) + d - 1
  {
    hide YearStart, MonthStart;
    assert (m - 1) / 12 == 0 && (m - 1) % 12 == m - 1;
  }

  /** The day of the date of a day is the day. */
  lemma CivilIsDay(n: int)
    ensures var c := CivilOf(n); DayOf(c.year, c.month, c.day) == n
  {
    hide YearStart, MonthStart, YearOf, MonthFrom, DayOf, MonthLength;
    var c := CivilOf(n);
    DayInRange(c.year, c.month, c.day);
  }

  lemma {:induction false} MonthsGrow(y: int, m: int, m': int)
    requires 1 <= m <= m' <= 13
    ensures MonthStart(y, m) <= MonthStart(y, m')
    decreases m' - m
  {
    if m < m' {
      MonthsGrow(y, m, m' - 1);
    }
  }

  lemma DayOfInYear(y: int, m: int, d: int)
    requires Civil(y, m, d).Valid()
    ensures InYear(DayOf(y, m, d), y)
  {
    hide YearStart, DayOf;
    DayInRange(y, m, d);
    MonthsGrow(y, 1, m);
    MonthsGrow(y, m + 1, 13);
    TwelveMonths(y);
    YearLength(y);
  }

  /** The date of the day of a date is the date: every day has exactly one date. */
  lemma DayIsCivil(y: int, m: int, d: int)
    requires Civil(y, m, d).Valid()
    ensures CivilOf(DayOf(y, m, d)) == Civil(y, m, d)
  {
    hide YearStart, DayOf, Leap, YearOf, MonthFrom;
    var n := DayOf(y, m, d);
    var c := CivilOf(n);
    DayInRange(y, m, d);
    DayOfInYear(y, m, d);
    OneYear(n, y, c.year);
    var k := n - YearStart(y);
    OneMonth(y, k, m, c.month);
  }

  lemma OneMonth(y: int, k: int, m: int, m': int)
    requires 1 <= m <= 12 && MonthStart(y, m) <= k < MonthStart(y, m + 1)
    requires 1 <= m' <= 12 && MonthStart(y, m') <= k < MonthStart(y, m' + 1)
    ensures m == m'
  {
    hide MonthStart;
    if m < m' {
      MonthsGrow(y, m + 1, m');
    } else if m' < m {
      MonthsGrow(y, m' + 1, m);
    }
  }

  lemma DaysAdd(y: int, m: int, d: int)
    ensures DayOf(y, m, d) == DayOf(y, m, 0) + d
  {
    hide YearStart, MonthStart;
  }

  lemma NextMonth(y: int, m: int, d: int)
    requires 1 <= m <= 12
    ensures DayOf(y, m + 1, d) == if m == 12 then DayOf(y + 1, 1, d) else DayOf(y, m + 1, d)
  {
    hide YearStart, MonthStart;
    if m == 12 {
      assert (m + 1 - 1) / 12 == 1 && (m + 1 - 1) % 12 == 0;
      assert (1 - 1) / 12 == 0 && (1 - 1) % 12 == 0;
    }
  }

  /** A day that a month does not have runs over into the next month. */
  lemma RunsOver(y: int, m: int, d: int)
    requires 1 <= m <= 12 && 1 <= d <= 31
    ensures var c := CivilOf(DayOf(y, m, d));
      DayOf(c.year, c.month, 0) == DayOf(y, if d <= MonthLength(y, m) then m else m + 1, 0)
  {
    hide DayOf, CivilOf, Leap;
    var len := MonthLength(y, m);
    if d <= len {
      DayIsCivil(y, m, d);
    } else {
      MonthsFollow(y, m);
      var y' := if m == 12 then y + 1 else y;
      var m' := if m == 12 then 1 else m + 1;
      DaysAdd(y, m, d);
      DaysAdd(y, m, len);
      DaysAdd(y, m + 1, d - len);
      NextMonth(y, m, d - len);
      NextMonth(y, m, 0);
      DayIsCivil(y', m', d - len);
    }
  }

  /** The Thursday of the week, from Monday to Sunday, that the day is in. */
  function ThursdayOf(n: int): int {
    n - n % 7 + 3
  }

  /** The ISO week date of a day: its week belongs to the year its Thursday is in
      and is numbered by that year's Thursdays; Monday is day 1. */
  predicate IsoDate(n: int, year: int, week: int, wday: int) {
    && InYear(ThursdayOf(n), year)
    && week == (ThursdayOf(n) - YearStart(year)) / 7 + 1
    && wday == n % 7 + 1
  }

  /** 53 weeks when the first or the last day of the year is a Thursday, and 52 otherwise. */
  function WeeksIn(year: int): int {
    if YearStart(year) % 7 == 3 || (YearStart(year + 1) - 1) % 7 == 3 then 53 else 52
  }

  predicate LegalWeek(year: int, week: int, wday: int) {
    1 <= week <= WeeksIn(year) && 1 <= wday <= 7
  }

  /** The day of the year that a week date is resolved to; it may be out of range. */
  function OrdinalOf(year: int, week: int, wday: int): int {
    var jan4 := if Weekday(DayOf(year, 1, 4)) == 0 then 7 else Weekday(DayOf(year, 1, 4));
    week * 7 + wday - jan4 - 3
  }

  lemma FirstOfYear(year: int, d: int)
    ensures DayOf(year, 1, d) == YearStart(year) + d - 1
  {
    hide YearStart;
    assert (1 - 1) / 12 == 0 && (1 - 1) % 12 == 0;
  }

  /** The Monday of the week with 4 January in it. */
  lemma OrdinalIs(year: int, week: int, wday: int)
    ensures DayOf(year, 1, OrdinalOf(year, week, wday)) ==
      YearStart(year) + 3 - (YearStart(year) + 3) % 7 + 7 * (week - 1) + wday - 1
  {
    hide YearStart, DayOf;
    FirstOfYear(year, 4);
    FirstOfYear(year, OrdinalOf(year, week, wday));
    var j := YearStart(year) + 3;
    assert (j + 1) % 7 == if j % 7 == 6 then 0 else j % 7 + 1;
  }

  /** Arithmetic of weeks: with Thursday t of a week, first day s of a year and
      its length len, the number of the week. */
  lemma WeekNumber(s: int, len: int, n: int, week: int, wday: int)
    requires len == 365 || len == 366
    ensures var weeks := if s % 7 == 3 || (s + len - 1) % 7 == 3 then 53 else 52;
      (1 <= week <= weeks && 1 <= wday <= 7 && n == s + 3 - (s + 3) % 7 + 7 * (week - 1) + wday - 1) <==>
      (var t := n - n % 7 + 3; s <= t < s + len && week == (t - s) / 7 + 1 && wday == n % 7 + 1)
  {
    var a, q := s % 7, s / 7;
    var b, p := n % 7, n / 7;
    assert s == 7 * q + a && n == 7 * p + b;
    assert (s + 3) % 7 == if a < 4 then a + 3 else a - 4;
    var t := 7 * p + 3;
    assert n - n % 7 + 3 == t;
    assert (t - s) / 7 == if a <= 3 then p - q else p - q - 1;
    assert (s + len - 1) % 7 == (a + len - 1) % 7;
  }

  /** Week dates: for every day and every year, week and weekday, the week date is
      resolved to the day and is a legal one if and only if it is the ISO week
      date of the day. */
  lemma WeekDateIff(n: int, year: int, week: int, wday: int)
    ensures (LegalWeek(year, week, wday) && DayOf(year, 1, OrdinalOf(year, week, wday)) == n) <==>
      IsoDate(n, year, week, wday)
  {
    hide YearStart, DayOf, OrdinalOf, Leap;
    YearLength(year);
    OrdinalIs(year, week, wday);
    WeekNumber(YearStart(year), YearStart(year + 1) - YearStart(year), n, week, wday);
  }

  /** Every day has exactly one ISO week date. */
  lemma OneIsoDate(n: int, year: int, week: int, wday: int)
    ensures IsoDate(n, year, week, wday) <==>
      && year == YearOf(ThursdayOf(n))
      && week == (ThursdayOf(n) - YearStart(year)) / 7 + 1
      && wday == n % 7 + 1
  {
    hide YearStart, YearOf;
    if IsoDate(n, year, week, wday) {
      OneYear(ThursdayOf(n), year, YearOf(ThursdayOf(n)));
    }
  }

  /** Legal week dates are as good as days: two that resolve to the same day are the same. */
  lemma WeekDatesDiffer(year: int, week: int, wday: int, year': int, week': int, wday': int)
    requires LegalWeek(year, week, wday) && LegalWeek(year', week', wday')
    requires DayOf(year, 1, OrdinalOf(year, week, wday)) == DayOf(year', 1, OrdinalOf(year', week', wday'))
    ensures year == year' && week == week' && wday == wday'
  {
    hide YearStart, DayOf, OrdinalOf, LegalWeek, IsoDate;
    var n := DayOf(year, 1, OrdinalOf(year, week, wday));
    WeekDateIff(n, year, week, wday);
    WeekDateIff(n, year', week', wday');
    OneIsoDate(n, year, week, wday);
    OneIsoDate(n, year', week', wday');
  }

  /** The days among the next len days after day from that are the given weekday. */
  function Occurrences(from: int, len: nat, wday: int): nat {
    if len == 0 then 0
    else Occurrences(from, len - 1, wday) + (if Weekday(from + len) == wday then 1 else 0)
  }

  /** Weekdays repeat after seven days and not before. */
  lemma WeekdayPeriod(n: int, k: nat)
    requires 0 < k < 7
    ensures Weekday(n + k) != Weekday(n)
    ensures Weekday(n + 7) == Weekday(n)
  {
  }

  lemma {:induction false} NoneBetween(from: int, len: nat, k: nat, wday: int)
    requires k <= len && forall d :: from + len - k < d <= from + len ==> Weekday(d) != wday
    ensures Occurrences(from, len, wday) == Occurrences(from, len - k, wday)
  {
    if k > 0 {
      NoneBetween(from, len - 1, k - 1, wday);
    }
  }

  /** Going forward to a weekday, n weeks at most and more than n - 1, passes it n times. */
  lemma {:induction false} NthOccurrence(from: int, shift: nat, n: nat, wday: int)
    requires n > 0 && 7 * n - 6 <= shift <= 7 * n && Weekday(from + shift) == wday
    ensures Occurrences(from, shift, wday) == n
    decreases n
  {
    forall d | from + shift - 7 < d < from + shift ensures Weekday(d) != wday {
      WeekdayPeriod(d, from + shift - d);
    }
    hide Weekday;
    if n == 1 {
      NoneBetween(from, shift - 1, shift - 1, wday);
    } else {
      WeekdayPeriod(from + shift - 7, 1);
      NthOccurrence(from, shift - 7, n - 1, wday);
      NoneBetween(from, shift - 1, 6, wday);
    }
  }

  lemma {:induction false} OccurrencesGrow(from: int, a: nat, b: nat, wday: int)
    requires a <= b
    ensures Occurrences(from, a, wday) <= Occurrences(from, b, wday)
    decreases b
  {
    hide Weekday;
    if a < b {
      OccurrencesGrow(from, a, b - 1, wday);
    }
  }

  /** The nth occurrence falls within the next len days just when there are as many there. */
  lemma NthWithin(from: int, shift: nat, n: nat, len: nat, wday: int)
    requires n > 0 && 7 * n - 6 <= shift <= 7 * n && Weekday(from + shift) == wday
    ensures shift <= len <==> Occurrences(from, len, wday) >= n
  {
    hide Weekday;
    NthOccurrence(from, shift, n, wday);
    if shift <= len {
      OccurrencesGrow(from, shift, len, wday);
    } else {
      OccurrencesGrow(from, len, shift - 1, wday);
    }
  }
}
