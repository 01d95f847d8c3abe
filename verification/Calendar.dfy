/** Calendar dates of day numbers. */
module Calendar {
  datatype Date = Date(year: int, month: int, day: int)

  /** Division that rounds toward zero. */
  function Truncated(n: int, d: int): int
    requires d > 0
  {
    if n >= 0 then n / d else -(-n / d)
  }

  /** The date of a day of an era. */
  function DateInEra(doe: int, era: int): Date {
    var yoe := (doe - doe / 1460 + doe / 36_524 - doe / 146_096) / 365;
    var y := yoe + era * 400;
    var doy := doe - (365 * yoe + yoe / 4 - yoe / 100);
    var mp := (5 * doy + 2) / 153;
    var d := doy - (153 * mp + 2) / 5 + 1;
    var m := if mp < 10 then mp + 3 else mp - 9;
    Date(if m <= 2 then y + 1 else y, m, d)
  }

  /** The date of a day number counted from 1970-01-01. */
  function CivilFromDays(days: int): Date {
    var z := days + 719_468;
    var era := Truncated(if z >= 0 then z else z - 146_096, 146_097);
    DateInEra(z - era * 146_097, era)
  }

  // ----- the calendar, stated independently

  predicate IsLeap(year: int) {
    year % 4 == 0 && (year % 100 != 0 || year % 400 == 0)
  }

  function MonthLength(year: int, month: int): int {
    if month == 2 then (if IsLeap(year) then 29 else 28)
    else if month == 4 || month == 6 || month == 9 || month == 11 then 30
    else 31
  }

  predicate IsDate(t: Date) {
    1 <= t.month <= 12 && 1 <= t.day <= MonthLength(t.year, t.month)
  }

  function NextDate(t: Date): Date {
    if t.day < MonthLength(t.year, t.month) then t.(day := t.day + 1)
    else if t.month < 12 then Date(t.year, t.month + 1, 1)
    else Date(t.year + 1, 1, 1)
  }

  // ----- eras, years that begin in March, days of such a year

  function YearOfEra(doe: int): int {
    (doe - doe / 1460 + doe / 36_524 - doe / 146_096) / 365
  }

  function YearStart(yoe: int): int {
    365 * yoe + yoe / 4 - yoe / 100
  }

  lemma EraIsFloor(z: int)
    ensures var era := Truncated(if z >= 0 then z else z - 146_096, 146_097);
            era == z / 146_097 && z - era * 146_097 == z % 146_097
  {
  }

  /** Within century k of an era, year j of the century begins at day 365 j + j / 4. */
  lemma CenturyStart(k: int, j: int)
    requires 0 <= k && 0 <= j < 100
    ensures YearStart(100 * k + j) == 36_524 * k + 365 * j + j / 4
    ensures YearStart(100 * k + 100) == 36_524 * (k + 1)
  {
    assert 100 * k + j == 4 * (25 * k) + j && 100 * k + 100 == 4 * (25 * k + 25);
    QuotientOf4(25 * k, j);
    QuotientOf4(25 * k + 25, 0);
    QuotientOf100(k, j);
    QuotientOf100(k + 1, 0);
  }

  lemma QuotientOf4(m: int, j: int)
    ensures (4 * m + j) / 4 == m + j / 4
  {
  }

  lemma QuotientOf100(k: int, j: int)
    requires 0 <= j < 100
    ensures (100 * k + j) / 100 == k
  {
  }

  /** The correction term counts the leap days passed in the century. */
  lemma LeapDaysPassed(k: int, q: int, s: int)
    requires 0 <= k <= 3 && 0 <= q <= 24 && 0 <= s < 1461
    ensures var t := (24 * k + q + s) / 1460; (s - t) / 365 == if s == 1460 then 3 else s / 365
  {
    var u := 24 * k + q;
    assert 0 <= u <= 96;
    var t := (u + s) / 1460;
    assert t == if u + s >= 1460 then 1 else 0;
    if s == 1460 {
    } else if t == 1 {
      assert 1364 <= s < 1460 && s / 365 == 3 && (s - 1) / 365 == 3;
    }
  }

  lemma YearInCentury(k: int, r: int)
    requires 0 <= k <= 3 && 0 <= r < 36_524
    ensures var j := (r - (24 * k + r) / 1460) / 365;
            0 <= j < 100 && 365 * j + j / 4 <= r && (j < 99 ==> r < 365 * (j + 1) + (j + 1) / 4)
  {
    var q, s := r / 1461, r % 1461;
    var t := (24 * k + q + s) / 1460;
    LeapDaysPassed(k, q, s);
    assert r == 1461 * q + s && 0 <= q <= 24;
    assert (24 * k + r) / 1460 == q + t by {
      assert 24 * k + r == 1460 * q + (24 * k + q + s);
    }
    var i := if s == 1460 then 3 else s / 365;
    assert r - (24 * k + r) / 1460 == 365 * (4 * q) + (s - t);
    assert (365 * (4 * q) + (s - t)) / 365 == 4 * q + (s - t) / 365;
    var j := 4 * q + i;
    assert j == (r - (24 * k + r) / 1460) / 365 && 0 <= i <= 3;
    assert j / 4 == q && (j + 1) / 4 == if i == 3 then q + 1 else q;
  }

  /** The year of the era is the one whose days contain doe; the last day of the era is the leap day of
      its last year. */
  lemma YearOfEraCorrect(doe: int)
    requires 0 <= doe < 146_097
    ensures var y := YearOfEra(doe);
            0 <= y < 400 && YearStart(y) <= doe && (if y == 399 then doe <= YearStart(400) else doe < YearStart(y + 1))
  {
    var k := doe / 36_524;
    if k == 4 {
      assert doe == 146_096 && doe / 1460 == 100;
    } else {
      YearOfCentury(k, doe - 36_524 * k);
    }
  }

  lemma YearOfCentury(k: int, r: int)
    requires 0 <= k <= 3 && 0 <= r < 36_524
    ensures var doe := 36_524 * k + r;
            var y := YearOfEra(doe);
            0 <= y < 400 && YearStart(y) <= doe && (if y == 399 then doe <= YearStart(400) else doe < YearStart(y + 1))
  {
    hide YearOfEra, YearStart;
    YearInCentury(k, r);
    YearFromCentury(k, r);
    var j := (r - (24 * k + r) / 1460) / 365;
    CenturyStart(k, j);
    if j < 99 {
      CenturyStart(k, j + 1);
    } else if k < 3 {
      CenturyStart(k + 1, 0);
    }
  }

  lemma YearFromCentury(k: int, r: int)
    requires 0 <= k <= 3 && 0 <= r < 36_524
    ensures YearOfEra(36_524 * k + r) == 100 * k + (r - (24 * k + r) / 1460) / 365
  {
    var doe, n := 36_524 * k + r, r - (24 * k + r) / 1460;
    assert doe == 1460 * (25 * k) + (24 * k + r);
    assert doe / 1460 == 25 * k + (24 * k + r) / 1460;
    assert doe / 36_524 == k && doe / 146_096 == 0;
    assert (365 * (100 * k) + n) / 365 == 100 * k + n / 365;
  }

  /** The day of a year that begins in March, as month and day. */
  function MonthOf(doy: int): int { (5 * doy + 2) / 153 }

  function MonthStart(mp: int): int { (153 * mp + 2) / 5 }

  /** Months counted from March: where they start and how long they are (the last one is cut short by
      the end of the year). */
  lemma MonthOfYear(doy: int)
    requires 0 <= doy <= 365
    ensures var mp := MonthOf(doy);
            0 <= mp <= 11 && MonthStart(mp) <= doy < MonthStart(mp + 1)
            && MonthStart(mp + 1) - MonthStart(mp)
               == (if mp == 1 || mp == 3 || mp == 6 || mp == 8 || mp == 11 then 30 else 31)
  {
  }

  // ----- years that begin in March

  datatype MarchDay = MarchDay(year: int, doy: int)

  function YearLength(y: int): int {
    if IsLeap(y + 1) then 366 else 365
  }

  /** The March year a day number falls into, and the day within it. */
  function MarchOf(days: int): MarchDay {
    var z := days + 719_468;
    var doe := z % 146_097;
    MarchDay(YearOfEra(doe) + z / 146_097 * 400, doe - YearStart(YearOfEra(doe)))
  }

  function DateOf(t: MarchDay): Date {
    var mp := MonthOf(t.doy);
    var m := if mp < 10 then mp + 3 else mp - 9;
    Date(if m <= 2 then t.year + 1 else t.year, m, t.doy - MonthStart(mp) + 1)
  }

  function MarchDays(t: MarchDay): int {
    t.year / 400 * 146_097 + YearStart(t.year % 400) + t.doy - 719_468
  }

  lemma ViaMarch(days: int)
    ensures CivilFromDays(days) == DateOf(MarchOf(days))
  {
    hide Truncated;
    var z := days + 719_468;
    EraIsFloor(z);
    hide YearOfEra, YearStart, DateOf, DateInEra;
    SameDate(z % 146_097, z / 146_097);
  }

  lemma SameDate(doe: int, era: int)
    ensures DateInEra(doe, era)
         == DateOf(MarchDay(YearOfEra(doe) + era * 400, doe - YearStart(YearOfEra(doe))))
  {
  }

  lemma ModOfEra(n: int, era: int)
    ensures (n + 400 * era) % 4 == n % 4 && (n + 400 * era) % 100 == n % 100 && (n + 400 * era) % 400 == n % 400
  {
    ModOf4(n, 100 * era);
    ModOf100(n, 4 * era);
    ModOf400(n, era);
    assert n + 400 * era == n + 4 * (100 * era) == n + 100 * (4 * era);
  }

  lemma ModOf4(n: int, k: int)
    ensures (n + 4 * k) % 4 == n % 4
  {
  }

  lemma ModOf100(n: int, k: int)
    ensures (n + 100 * k) % 100 == n % 100
  {
  }

  lemma ModOf400(n: int, k: int)
    ensures (n + 400 * k) % 400 == n % 400
  {
  }

  /** The length of year y of an era, from the starts of the years. */
  lemma YearLengths(y: int, era: int)
    requires 0 <= y < 400
    ensures YearLength(y + 400 * era) == if y == 399 then 146_097 - YearStart(399) else YearStart(y + 1) - YearStart(y)
    ensures 0 <= YearStart(y) && YearStart(y) + YearLength(y + 400 * era) <= 146_097
  {
    hide YearStart;
    ModOfEra(y + 1, era);
    assert y + 400 * era + 1 == y + 1 + 400 * era;
    assert y < 399 ==> (y + 1) % 400 == y + 1;
    LeapStep(y);
  }

  lemma YearLengthRange(y: int)
    ensures 365 <= YearLength(y) <= 366
  {
  }

  lemma LeapStep(y: int)
    requires 0 <= y < 400
    ensures YearStart(y + 1) - YearStart(y)
        == 365 + (if (y + 1) % 4 == 0 then 1 else 0) - (if (y + 1) % 100 == 0 then 1 else 0)
    ensures 0 <= YearStart(y) <= YearStart(399) == 145_731
    ensures y < 399 ==> YearStart(y + 1) <= YearStart(399)
  {
  }

  lemma YearStartStep(y: int)
    requires 0 <= y
    ensures YearStart(y + 1) >= YearStart(y) + 365
  {
    FourthYears(y);
    HundredthYears(y);
  }

  lemma FourthYears(y: int)
    ensures (y + 1) / 4 == y / 4 + if (y + 1) % 4 == 0 then 1 else 0
  {
  }

  /** A year that is divisible by 100 is divisible by 4. */
  lemma HundredthYears(y: int)
    ensures (y + 1) / 100 == y / 100 + if (y + 1) % 100 == 0 then 1 else 0
    ensures (y + 1) % 100 == 0 ==> (y + 1) % 4 == 0
  {
    ModOf4(0, 25 * ((y + 1) / 100));
  }

  lemma {:induction false} YearStartsGrow(x: int, y: int)
    requires 0 <= x <= y
    ensures YearStart(x) + 365 * (y - x) <= YearStart(y)
    decreases y
  {
    if x < y {
      YearStartStep(y - 1);
      hide YearStart;
      YearStartsGrow(x, y - 1);
    }
  }

  /** The March year of a day is the one that contains it: reading and counting days are inverse. */
  lemma MarchRoundTrip(days: int)
    ensures var t := MarchOf(days); 0 <= t.doy < YearLength(t.year) && MarchDays(t) == days
  {
    hide YearOfEra, YearStart, YearLength;
    var z := days + 719_468;
    var doe, era := z % 146_097, z / 146_097;
    YearOfEraCorrect(doe);
    YearLengths(YearOfEra(doe), era);
    var t := MarchOf(days);
    assert t.year % 400 == YearOfEra(doe) && t.year / 400 == era;
  }

  lemma MarchInverse(t: MarchDay)
    requires 0 <= t.doy < YearLength(t.year)
    ensures MarchOf(MarchDays(t)) == t
  {
    hide YearOfEra, YearStart, YearLength;
    var y, era := t.year % 400, t.year / 400;
    var doe := YearStart(y) + t.doy;
    YearLengths(y, era);
    assert t.year == y + 400 * era;
    var z := MarchDays(t) + 719_468;
    assert z == 146_097 * era + doe;
    assert z % 146_097 == doe && z / 146_097 == era;
    YearOfEraCorrect(doe);
    var x := YearOfEra(doe);
    YearLengths(x, era);
    if x < y {
      YearStartsGrow(x + 1, y);
    } else if y < x {
      YearStartsGrow(y + 1, x);
    }
  }

  // ----- the dates

  lemma MarchDateValid(t: MarchDay)
    requires 0 <= t.doy < YearLength(t.year)
    ensures IsDate(DateOf(t))
  {
    MonthOfYear(t.doy);
  }

  function NextMarch(t: MarchDay): MarchDay {
    if t.doy + 1 < YearLength(t.year) then t.(doy := t.doy + 1) else MarchDay(t.year + 1, 0)
  }

  lemma MarchNextDay(t: MarchDay)
    requires 0 <= t.doy < YearLength(t.year)
    ensures MarchDays(NextMarch(t)) == MarchDays(t) + 1
  {
    hide YearStart, YearLength;
    var y, era := t.year % 400, t.year / 400;
    YearLengths(y, era);
    assert t.year == y + 400 * era;
    if y == 399 {
      assert (t.year + 1) / 400 == era + 1 && (t.year + 1) % 400 == 0;
    } else {
      assert (t.year + 1) / 400 == era && (t.year + 1) % 400 == y + 1;
    }
    FirstYearStart();
  }

  lemma FirstYearStart()
    ensures YearStart(0) == 0
  {
  }

  lemma MarchNextDate(t: MarchDay)
    requires 0 <= t.doy < YearLength(t.year)
    ensures DateOf(NextMarch(t)) == NextDate(DateOf(t))
  {
    hide MonthOf, MonthStart;
    FirstMonths();
    MonthOfYear(t.doy);
    if t.doy + 1 < YearLength(t.year) {
      MonthsInOrder(t.doy);
    } else {
      LastMonth(t.doy);
    }
  }

  lemma FirstMonths()
    ensures forall mp :: 0 <= mp <= 12 ==>
        MonthStart(mp) == [0, 31, 61, 92, 122, 153, 184, 214, 245, 275, 306, 337, 367][mp]
  {
  }

  lemma LastMonth(doy: int)
    requires 364 <= doy <= 365
    ensures MonthOf(doy) == 11 && MonthStart(11) == 337 && MonthOf(0) == 0 && MonthStart(0) == 0
  {
  }

  lemma MonthsInOrder(doy: int)
    requires 0 <= doy < 365
    ensures MonthOf(doy + 1) == if doy + 1 == MonthStart(MonthOf(doy) + 1) then MonthOf(doy) + 1 else MonthOf(doy)
  {
    MonthOfYear(doy);
    MonthOfYear(doy + 1);
  }

  lemma Epoch()
    ensures CivilFromDays(0) == Date(1970, 1, 1)
  {
    hide DateInEra;
    EraIsFloor(719_468);
    assert 719_468 / 146_097 == 4 && 719_468 % 146_097 == 135_080;
    EpochInEra();
  }

  lemma EpochInEra()
    ensures DateInEra(135_080, 4) == Date(1970, 1, 1)
  {
    assert (135_080 - 135_080 / 1460 + 135_080 / 36_524 - 135_080 / 146_096) / 365 == 369;
    assert 135_080 - (365 * 369 + 369 / 4 - 369 / 100) == 306;
  }

  /** Day 0 is 1970-01-01, every day has a date of the proleptic Gregorian calendar, and the next day
      has the next date: for every day number, negative ones included. */
  lemma CalendarIsGregorian(days: int)
    ensures CivilFromDays(0) == Date(1970, 1, 1)
    ensures IsDate(CivilFromDays(days))
    ensures CivilFromDays(days + 1) == NextDate(CivilFromDays(days))
  {
    hide YearOfEra, YearStart, YearLength, MonthOf, MonthStart, MonthLength, MarchOf, MarchDays, DateOf, IsDate,
        NextDate, CivilFromDays;
    Epoch();
    ViaMarch(days);
    ViaMarch(days + 1);
    MarchRoundTrip(days);
    MarchRoundTrip(days + 1);
    var t := MarchOf(days);
    MarchDateValid(t);
    MarchNextDay(t);
    MarchNextDate(t);
    var t' := NextMarch(t);
    YearLengthRange(t'.year);
    MarchInverse(t');
  }

  /** The March day of a date. */
  function MarchOfDate(t: Date): MarchDay {
    if t.month > 2 then MarchDay(t.year, MonthStart(t.month - 3) + t.day - 1)
    else MarchDay(t.year - 1, MonthStart(t.month + 9) + t.day - 1)
  }

  function DaysFromCivil(t: Date): int {
    MarchDays(MarchOfDate(t))
  }

  lemma DateRoundTrip(t: Date)
    requires IsDate(t)
    ensures var m := MarchOfDate(t); 0 <= m.doy < YearLength(m.year) && DateOf(m) == t
  {
    hide MonthOf, MonthStart;
    FirstMonths();
    MonthOfYear(MarchOfDate(t).doy);
  }

  lemma MarchDateInverse(t: MarchDay)
    requires 0 <= t.doy < YearLength(t.year)
    ensures MarchOfDate(DateOf(t)) == t
  {
    MonthOfYear(t.doy);
  }

  /** Every date occurs, on exactly one day. */
  lemma DaysAndDatesCorrespond(days: int, t: Date)
    requires IsDate(t)
    ensures CivilFromDays(days) == t <==> DaysFromCivil(t) == days
  {
    hide YearOfEra, YearStart, YearLength, MonthOf, MonthStart, MarchOf, MarchDays, DateOf, IsDate, CivilFromDays,
        MarchOfDate;
    ViaMarch(days);
    MarchRoundTrip(days);
    MarchDateInverse(MarchOf(days));
    DateRoundTrip(t);
    MarchInverse(MarchOfDate(t));
  }

  /** The weekday the feed prints; 0 is Sunday. */
  function Weekday(days: int): int {
    (days + 4) % 7
  }

  /** Four hundred years later the date falls on the same weekday. */
  lemma CalendarRepeats(days: int)
    ensures var t := CivilFromDays(days); CivilFromDays(days + 146_097) == t.(year := t.year + 400)
    ensures Weekday(days + 146_097) == Weekday(days) && Weekday(0) == 4 && Weekday(days + 1) == (Weekday(days) + 1) % 7
  {
    hide YearOfEra, YearStart, MonthOf, MonthStart, MarchOf, CivilFromDays, Weekday;
    ViaMarch(days);
    ViaMarch(days + 146_097);
    MarchRepeats(days);
    WeekRepeats(days);
  }

  lemma MarchRepeats(days: int)
    ensures MarchOf(days + 146_097) == MarchOf(days).(year := MarchOf(days).year + 400)
  {
    hide YearOfEra, YearStart;
    NextEra(days + 719_468);
    assert days + 146_097 + 719_468 == days + 719_468 + 146_097;
  }

  lemma NextEra(z: int)
    ensures (z + 146_097) % 146_097 == z % 146_097 && (z + 146_097) / 146_097 == z / 146_097 + 1
  {
  }

  lemma WeekRepeats(days: int)
    ensures Weekday(days + 146_097) == Weekday(days) && Weekday(0) == 4 && Weekday(days + 1) == (Weekday(days) + 1) % 7
  {
  }
}
