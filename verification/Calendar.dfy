/** The civil calendar behind `epoch_to_rfc2822`: crates/core/src/util.rs. */
module Calendar {
  import opened Prelude
  import opened Decimals

  // ----- The proleptic Gregorian calendar -----

  datatype Date = Date(year: int, month: int, day: int)

  predicate Leap(y: int) {
    y % 4 == 0 && (y % 100 != 0 || y % 400 == 0)
  }

  function DaysIn(y: int, m: int): int {
    if m == 2 then if Leap(y) then 29 else 28
    else if m == 4 || m == 6 || m == 9 || m == 11 then 30
    else 31
  }

  predicate ValidDate(d: Date) {
    1 <= d.month <= 12 && 1 <= d.day <= DaysIn(d.year, d.month)
  }

  /** The next day of the calendar. */
  function Tomorrow(d: Date): Date {
    if d.day < DaysIn(d.year, d.month) then d.(day := d.day + 1)
    else if d.month < 12 then Date(d.year, d.month + 1, 1)
    else Date(d.year + 1, 1, 1)
  }

  // ----- The algorithm, with Rust's truncating division -----

  function Quot(a: int, b: int): int
    requires b > 0
  {
    if a >= 0 then a / b else -((-a) / b)
  }

  function Rem(a: int, b: int): int
    requires b > 0
  {
    a - Quot(a, b) * b
  }

  /** Years that start on 1 March, counted from 1 March of the year 0. */
  datatype March = March(year: int, dayOfYear: int)

  function YearOfEra(doe: int): int {
    (doe - doe / 1460 + doe / 36524 - doe / 146_096) / 365
  }

  /** The 400-year era of a day, with the correction for days before the first. */
  function EraOf(z: int): int {
    Quot(if z >= 0 then z else z - 146_096, 146_097)
  }

  function DayOfEra(z: int): int {
    z - EraOf(z) * 146_097
  }

  /** Days of the era before its year `yoe`. */
  function YearBase(yoe: int): int {
    365 * yoe + yoe / 4 - yoe / 100
  }

  function ToMarch(days: int): March {
    var z := days + 719_468;
    var doe := DayOfEra(z);
    var yoe := YearOfEra(doe);
    March(yoe + EraOf(z) * 400, doe - YearBase(yoe))
  }

  function MonthIndex(doy: int): int {
    (5 * doy + 2) / 153
  }

  /** Days of the March year before month `mp`. */
  function MonthStart(mp: int): int {
    (153 * mp + 2) / 5
  }

  function FromMarch(m: March): Date {
    var mp := MonthIndex(m.dayOfYear);
    var d := m.dayOfYear - MonthStart(mp) + 1;
    var month := if mp < 10 then mp + 3 else mp - 9;
    Date(if month <= 2 then m.year + 1 else m.year, month, d)
  }

  function Civil(days: int): Date {
    FromMarch(ToMarch(days))
  }

  // ----- Years -----

  /** The first day of March year `y`. */
  function YearStart(y: int): int {
    365 * y + y / 4 - y / 100 + y / 400
  }

  lemma QuotientSteps(y: int)
    ensures (y + 1) / 4 - y / 4 == if (y + 1) % 4 == 0 then 1 else 0
    ensures (y + 1) / 100 - y / 100 == if (y + 1) % 100 == 0 then 1 else 0
    ensures (y + 1) / 400 - y / 400 == if (y + 1) % 400 == 0 then 1 else 0
  {}

  lemma CenturiesAreMultiplesOfFour(y: int)
    ensures y % 400 == 0 ==> y % 100 == 0
    ensures y % 100 == 0 ==> y % 4 == 0
  {}

  /** Days of March year `y`, whose February belongs to year y + 1. */
  function YearLen(y: int): int {
    if Leap(y + 1) then 366 else 365
  }

  lemma YearLength(y: int)
    ensures YearStart(y + 1) - YearStart(y) == YearLen(y)
  {
    QuotientSteps(y);
    CenturiesAreMultiplesOfFour(y + 1);
  }

  lemma {:induction false} YearStartAscends(x: int, y: int)
    ensures x <= y ==> YearStart(x) <= YearStart(y)
    decreases y - x
  {
    if x < y {
      YearStartAscends(x, y - 1);
      YearLength(y - 1);
    }
  }

  lemma EraStart(era: int, q: int)
    requires 0 <= q < 400
    ensures YearStart(q + era * 400) == era * 146_097 + 365 * q + q / 4 - q / 100
    ensures YearStart(q + 1 + era * 400) == era * 146_097 + 365 * (q + 1) + (q + 1) / 4 - (q + 1) / 100 + (q + 1) / 400
  {
    assert (q + era * 400) / 4 == q / 4 + era * 100;
    assert (q + era * 400) / 100 == q / 100 + era * 4;
    assert (q + era * 400) / 400 == era;
    assert (q + 1 + era * 400) / 4 == (q + 1) / 4 + era * 100;
    assert (q + 1 + era * 400) / 100 == (q + 1) / 100 + era * 4;
    assert (q + 1 + era * 400) / 400 == (q + 1) / 400 + era;
  }

  /** The year of a four-year cycle that the formula gives to day `s` of cycle `q` of century `c`. */
  function YearInCycle(c: int, q: int, s: int): int {
    (s - if 24 * c + q + s >= 1460 then 1 else 0) / 365
  }

  /** A day of the era as centuries, four-year cycles and days, and what the formula makes of it. */
  lemma YearOfEraSplit(c: int, q: int, s: int)
    requires 0 <= c <= 3 && 0 <= q <= 24 && 0 <= s <= 1460
    requires q == 24 && s == 1460 ==> c == 3
    ensures YearOfEra(36524 * c + 1461 * q + s) == 100 * c + 4 * q + YearInCycle(c, q, s)
  {
    var doe := 36524 * c + 1461 * q + s;
    var delta := if 24 * c + q + s >= 1460 then 1 else 0;
    var last := if c == 3 && q == 24 && s == 1460 then 1 else 0;
    assert doe / 1460 == 25 * c + q + delta;
    assert doe / 36524 == c + last;
    assert doe / 146_096 == last;
    assert doe - doe / 1460 + doe / 36524 - doe / 146_096 == 365 * (100 * c + 4 * q) + (s - delta);
  }

  /** Every day of the era is in some century, cycle of four years and day of that. */
  lemma CycleOfDay(doe: int) returns (c: int, q: int, s: int)
    requires 0 <= doe < 146_097
    ensures 0 <= c <= 3 && 0 <= q <= 24 && 0 <= s <= 1460 && (q == 24 && s == 1460 ==> c == 3)
    ensures doe == 36524 * c + 1461 * q + s
  {
    c := if doe == 146_096 then 3 else doe / 36524;
    var r := doe - 36524 * c;
    q := r / 1461;
    s := r - 1461 * q;
  }

  /** Year `y` of the era is the one whose days `doe` falls among. */
  predicate YearHolds(y: int, doe: int) {
    0 <= y < 400 && YearBase(y) <= doe < 365 * (y + 1) + (y + 1) / 4 - (y + 1) / 100 + (y + 1) / 400
  }

  lemma CycleYearHolds(c: int, q: int, s: int)
    requires 0 <= c <= 3 && 0 <= q <= 24 && 0 <= s <= 1460 && (q == 24 && s == 1460 ==> c == 3)
    ensures YearHolds(100 * c + 4 * q + YearInCycle(c, q, s), 36524 * c + 1461 * q + s)
  {
    YearOfCycle(c, q, YearInCycle(c, q, s));
  }

  lemma YearOfEraCorrect(doe: int)
    requires 0 <= doe < 146_097
    ensures YearHolds(YearOfEra(doe), doe)
  {
    var c, q, s := CycleOfDay(doe);
    YearOfEraSplit(c, q, s);
    CycleYearHolds(c, q, s);
  }

  lemma YearOfCycle(c: int, q: int, a: int)
    requires 0 <= c <= 3 && 0 <= q <= 24 && 0 <= a <= 3
    ensures var y := 100 * c + 4 * q + a;
            && y / 4 == 25 * c + q && y / 100 == c
            && (y + 1) / 4 == (if a == 3 then 25 * c + q + 1 else 25 * c + q)
            && (y + 1) / 100 == (if a == 3 && q == 24 then c + 1 else c)
            && (y + 1) / 400 == (if a == 3 && q == 24 && c == 3 then 1 else 0)
  {}

  /** Day `z` of the March era is day `m.dayOfYear` of March year `m.year`. */
  predicate Locates(m: March, z: int) {
    m.dayOfYear >= 0 && YearStart(m.year) + m.dayOfYear == z < YearStart(m.year + 1)
  }

  /** Truncating division, corrected for negative days, is division rounding down. */
  lemma EraRoundsDown(z: int)
    ensures EraOf(z) == z / 146_097 && 0 <= DayOfEra(z) < 146_097
  {}

  lemma LocatesInEra(era: int, doe: int, y: int)
    requires YearHolds(y, doe)
    ensures Locates(March(y + era * 400, doe - YearBase(y)), doe + era * 146_097)
  {
    EraStart(era, y);
  }

  lemma ToMarchLocates(days: int)
    ensures Locates(ToMarch(days), days + 719_468)
  {
    var z := days + 719_468;
    EraRoundsDown(z);
    YearOfEraCorrect(DayOfEra(z));
    LocatesInEra(EraOf(z), DayOfEra(z), YearOfEra(DayOfEra(z)));
  }

  /** A day lies in one March year only. */
  lemma MarchIsUnique(a: March, b: March, z: int)
    requires Locates(a, z) && Locates(b, z)
    ensures a == b
  {
    YearStartAscends(a.year + 1, b.year);
    YearStartAscends(b.year + 1, a.year);
  }

  function NextMarch(m: March): March {
    if m.dayOfYear + 1 < YearLen(m.year) then March(m.year, m.dayOfYear + 1) else March(m.year + 1, 0)
  }

  lemma NextMarchLocates(m: March, z: int)
    requires Locates(m, z)
    ensures Locates(NextMarch(m), z + 1)
  {
    YearLength(m.year);
    YearLength(m.year + 1);
  }

  lemma ToMarchNext(days: int)
    ensures ToMarch(days + 1) == NextMarch(ToMarch(days))
  {
    var m, n := ToMarch(days), ToMarch(days + 1);
    ToMarchLocates(days);
    ToMarchLocates(days + 1);
    NextMarchLocates(m, days + 719_468);
    MarchIsUnique(n, NextMarch(m), days + 1 + 719_468);
  }

  // ----- Months -----

  lemma MonthOfDay(doy: int)
    requires 0 <= doy <= 365
    ensures var mp := MonthIndex(doy); 0 <= mp <= 11 && MonthStart(mp) <= doy < MonthStart(mp + 1)
  {}

  lemma MonthLength(mp: int)
    requires 0 <= mp <= 10
    ensures var month := if mp < 10 then mp + 3 else mp - 9;
            forall y :: MonthStart(mp + 1) - MonthStart(mp) == DaysIn(y, month)
  {
    assert mp == 0 || mp == 1 || mp == 2 || mp == 3 || mp == 4 || mp == 5 || mp == 6 || mp == 7 || mp == 8 || mp == 9 || mp == 10;
  }

  /** The date in month `mp` of March year `y`. */
  function InMonth(y: int, mp: int, day: int): Date {
    Date(if mp < 10 then y else y + 1, if mp < 10 then mp + 3 else mp - 9, day)
  }

  /** Days of month `mp` of March year `y`; February, the last month, ends the year. */
  lemma MonthEnds(y: int, mp: int)
    requires 0 <= mp <= 11
    ensures var d := InMonth(y, mp, 1);
            DaysIn(d.year, d.month) == (if mp < 11 then MonthStart(mp + 1) else YearLen(y)) - MonthStart(mp)
  {
    if mp < 11 { MonthLength(mp); }
  }

  lemma FromMarchInMonth(m: March, mp: int)
    requires 0 <= m.dayOfYear <= 365 && 0 <= mp <= 11 && MonthStart(mp) <= m.dayOfYear < MonthStart(mp + 1)
    ensures FromMarch(m) == InMonth(m.year, mp, m.dayOfYear - MonthStart(mp) + 1)
  {
    MonthIsUnique(m.dayOfYear, mp);
  }

  lemma FromMarchIsValid(m: March)
    requires 0 <= m.dayOfYear < YearLen(m.year)
    ensures ValidDate(FromMarch(m))
  {
    MonthOfDay(m.dayOfYear);
    var mp := MonthIndex(m.dayOfYear);
    FromMarchInMonth(m, mp);
    MonthEnds(m.year, mp);
  }

  lemma TomorrowInMonth(y: int, mp: int, day: int)
    requires 0 <= mp <= 11
    ensures var d := InMonth(y, mp, day);
            Tomorrow(d) == if day < DaysIn(d.year, d.month) then InMonth(y, mp, day + 1)
                           else if mp < 11 then InMonth(y, mp + 1, 1) else InMonth(y + 1, 0, 1)
  {}

  lemma NextInYear(y: int, mp: int, doy: int)
    requires 0 <= doy && doy + 1 < YearLen(y)
    requires 0 <= mp <= 11 && MonthStart(mp) <= doy < MonthStart(mp + 1)
    ensures FromMarch(March(y, doy + 1)) == Tomorrow(FromMarch(March(y, doy)))
  {
    MonthEnds(y, mp);
    FromMarchInMonth(March(y, doy), mp);
    TomorrowInMonth(y, mp, doy - MonthStart(mp) + 1);
    FromMarchInMonth(March(y, doy + 1), if doy + 1 < MonthStart(mp + 1) then mp else mp + 1);
  }

  lemma NextWithinYear(y: int, doy: int)
    requires 0 <= doy && doy + 1 < YearLen(y)
    ensures FromMarch(March(y, doy + 1)) == Tomorrow(FromMarch(March(y, doy)))
  {
    MonthOfDay(doy);
    NextInYear(y, MonthIndex(doy), doy);
  }

  lemma FirstOfMarch(y: int)
    ensures FromMarch(March(y, 0)) == InMonth(y, 0, 1)
  {}

  lemma LastOfFebruary(y: int)
    ensures FromMarch(March(y, YearLen(y) - 1)) == InMonth(y, 11, DaysIn(y + 1, 2))
  {}

  lemma NextAcrossYears(y: int)
    ensures FromMarch(March(y + 1, 0)) == Tomorrow(FromMarch(March(y, YearLen(y) - 1)))
  {
    LastOfFebruary(y);
    TomorrowInMonth(y, 11, DaysIn(y + 1, 2));
    FirstOfMarch(y + 1);
  }

  /** Within and across March years, the next day's date is the calendar's next day. */
  lemma FromMarchNext(m: March)
    requires 0 <= m.dayOfYear < YearLen(m.year)
    ensures FromMarch(NextMarch(m)) == Tomorrow(FromMarch(m))
  {
    if m.dayOfYear + 1 < YearLen(m.year) {
      NextWithinYear(m.year, m.dayOfYear);
    } else {
      NextAcrossYears(m.year);
    }
  }

  lemma MonthIsUnique(doy: int, mp: int)
    requires 0 <= doy <= 365 && 0 <= mp <= 11 && MonthStart(mp) <= doy < MonthStart(mp + 1)
    ensures MonthIndex(doy) == mp
  {}

  // ----- What the date means -----

  lemma MarchOfEpoch()
    ensures ToMarch(0) == March(1969, 306)
  {
    assert EraOf(719_468) == 4;
    assert DayOfEra(719_468) == 135_080;
    assert YearOfEra(135_080) == 369;
    assert YearBase(369) == 134_774;
  }

  lemma Epoch()
    ensures Civil(0) == Date(1970, 1, 1)
  {
    MarchOfEpoch();
    assert MonthIndex(306) == 10;
  }

  lemma CivilNext(days: int)
    ensures Civil(days + 1) == Tomorrow(Civil(days)) && ValidDate(Civil(days))
  {
    var m := ToMarch(days);
    ToMarchLocates(days);
    YearLength(m.year);
    ToMarchNext(days);
    FromMarchNext(m);
    FromMarchIsValid(m);
  }

  /**
   Day 0 is 1 January 1970, every day is followed by the next day of the calendar, and every date
   is valid: the algorithm computes the proleptic Gregorian calendar, in both directions of time.
   */
  lemma CivilIsTheCalendar(days: int)
    ensures Civil(0) == Date(1970, 1, 1)
    ensures Civil(days + 1) == Tomorrow(Civil(days))
    ensures ValidDate(Civil(days))
  {
    Epoch();
    CivilNext(days);
  }

  /** Days of the years 1 to y - 1. */
  function YearDays(y: int): int {
    365 * (y - 1) + (y - 1) / 4 - (y - 1) / 100 + (y - 1) / 400
  }

  /** Days of year `y` before month `m`. */
  function MonthDays(y: int, m: int): int
    decreases m
  {
    if m <= 1 then 0 else MonthDays(y, m - 1) + DaysIn(y, m - 1)
  }

  /** Days since 1 January 1970, counted from the lengths of years and months. */
  function DayNumber(d: Date): int {
    YearDays(d.year) + MonthDays(d.year, d.month) + d.day - 719_163
  }

  lemma MonthsFillTheYear(y: int)
    ensures MonthDays(y, 12) + 31 == if Leap(y) then 366 else 365
  {
    assert MonthDays(y, 3) == 31 + DaysIn(y, 2);
    assert MonthDays(y, 6) == 123 + DaysIn(y, 2);
    assert MonthDays(y, 9) == 215 + DaysIn(y, 2);
  }

  lemma YearDaysNext(y: int)
    ensures YearDays(y + 1) - YearDays(y) == if Leap(y) then 366 else 365
  {
    QuotientSteps(y - 1);
    CenturiesAreMultiplesOfFour(y);
  }

  lemma NextMonth(y: int, m: int)
    requires 1 <= m < 12
    ensures MonthDays(y, m + 1) == MonthDays(y, m) + DaysIn(y, m)
  {}

  lemma NextYear(y: int)
    ensures DayNumber(Date(y + 1, 1, 1)) == DayNumber(Date(y, 12, 31)) + 1
  {
    MonthsFillTheYear(y);
    YearDaysNext(y);
  }

  lemma DayNumberOfTomorrow(d: Date)
    requires ValidDate(d)
    ensures DayNumber(Tomorrow(d)) == DayNumber(d) + 1
    ensures ValidDate(Tomorrow(d))
  {
    if d.day == DaysIn(d.year, d.month) {
      if d.month < 12 { NextMonth(d.year, d.month); } else { NextYear(d.year); }
    }
  }

  lemma DayNumberNext(days: int)
    ensures DayNumber(Civil(days + 1)) == DayNumber(Civil(days)) + 1
  {
    CivilNext(days);
    DayNumberOfTomorrow(Civil(days));
  }

  lemma DayNumberOfEpoch()
    ensures DayNumber(Date(1970, 1, 1)) == 0
  {
    assert MonthDays(1970, 1) == 0;
  }

  lemma DayNumberAtEpoch(days: int)
    requires days == 0
    ensures DayNumber(Civil(days)) == days
  {
    Epoch();
    DayNumberOfEpoch();
  }

  lemma {:induction false} DayNumberAfterEpoch(days: nat)
    ensures DayNumber(Civil(days)) == days
  {
    if days == 0 {
      DayNumberAtEpoch(days);
    } else {
      var before := days - 1;
      DayNumberAfterEpoch(before);
      DayNumberNext(before);
    }
  }

  lemma {:induction false} DayNumberBeforeEpoch(days: int)
    requires days <= 0
    ensures DayNumber(Civil(days)) == days
    decreases -days
  {
    if days == 0 {
      DayNumberAtEpoch(days);
    } else {
      DayNumberBeforeEpoch(days + 1);
      DayNumberNext(days);
    }
  }

  /** The date of a day is the one that many days from the epoch. */
  lemma DayNumberOfCivil(days: int)
    ensures DayNumber(Civil(days)) == days
  {
    if days >= 0 { DayNumberAfterEpoch(days); } else { DayNumberBeforeEpoch(days); }
  }

  // ----- Time of day and the printed form -----

  /** `weekday` counts from Thursday, the day of the epoch. */
  datatype Fields = Fields(weekday: int, date: Date, hour: int, minute: int, second: int)

  function Weekday(days: int): int {
    Rem(Rem(days, 7) + 7, 7)
  }

  function FieldsOf(secs: int): Fields {
    var days := secs / 86400;
    var daySecs := secs % 86400;
    Fields(Weekday(days), Civil(days), daySecs / 3600, daySecs / 60 % 60, daySecs % 60)
  }

  /** The fields say which second it is, and the weekday follows the day count. */
  lemma FieldsRecoverSeconds(secs: int)
    ensures var f := FieldsOf(secs);
            && ValidDate(f.date) && 0 <= f.hour < 24 && 0 <= f.minute < 60 && 0 <= f.second < 60
            && secs == DayNumber(f.date) * 86400 + f.hour * 3600 + f.minute * 60 + f.second
            && f.weekday == DayNumber(f.date) % 7
  {
    var days, r := secs / 86400, secs % 86400;
    CivilNext(days);
    DayNumberOfCivil(days);
    TimeOfDay(r);
    WeekdayIsModulo(days);
  }

  lemma TimeOfDay(r: int)
    requires 0 <= r < 86400
    ensures r == r / 3600 * 3600 + r / 60 % 60 * 60 + r % 60 && r / 3600 < 24
  {
    assert r / 60 / 60 == r / 3600;
  }

  lemma WeekdayIsModulo(days: int)
    ensures Weekday(days) == days % 7
  {}

  lemma ModuloNext(days: int)
    ensures (days + 1) % 7 == (days % 7 + 1) % 7
  {}

  /** The next day has the next weekday. */
  lemma WeekdayAdvances(days: int)
    ensures Weekday(days + 1) == (Weekday(days) + 1) % 7
  {
    WeekdayIsModulo(days);
    WeekdayIsModulo(days + 1);
    ModuloNext(days);
  }

  lemma DayLater(secs: int)
    ensures (secs + 86400) / 86400 == secs / 86400 + 1
  {}

  /** 86400 seconds later the date is tomorrow's, and the day the next one. */
  lemma DateAdvances(secs: int)
    ensures FieldsOf(secs + 86400).date == Tomorrow(FieldsOf(secs).date)
    ensures FieldsOf(secs + 86400).weekday == Weekday(secs / 86400 + 1)
  {
    DayLater(secs);
    CivilNext(secs / 86400);
  }

  const DAYS := ["Thu", "Fri", "Sat", "Sun", "Mon", "Tue", "Wed"]
  const MONTHS := ["Jan", "Feb", "Mar", "Apr", "May", "Jun", "Jul", "Aug", "Sep", "Oct", "Nov", "Dec"]

  /** A number below 100, in two digits. */
  function Two(n: int): (s: string)
    requires 0 <= n < 100
    ensures |s| == 2
  {
    [Digit(n / 10), Digit(n % 10)]
  }

  function YearText(y: int): string {
    if y < 0 then "-" + Decimal(-y) else Decimal(y)
  }

  predicate Printable(f: Fields) {
    && 0 <= f.weekday < 7 && ValidDate(f.date)
    && 0 <= f.hour < 24 && 0 <= f.minute < 60 && 0 <= f.second < 60
  }

  function Prefix(f: Fields): (s: string)
    requires Printable(f)
    ensures |s| == 12
  {
    DAYS[f.weekday] + ", " + Two(f.date.day) + " " + MONTHS[f.date.month - 1] + " "
  }

  function Suffix(f: Fields): (s: string)
    requires Printable(f)
    ensures |s| == 15
  {
    " " + Two(f.hour) + ":" + Two(f.minute) + ":" + Two(f.second) + " +0000"
  }

  function Rfc2822(secs: int): string {
    FieldsRecoverSeconds(secs);
    var f := FieldsOf(secs);
    Prefix(f) + YearText(f.date.year) + Suffix(f)
  }

  lemma TwoInjective(m: int, n: int)
    requires 0 <= m < 100 && 0 <= n < 100 && Two(m) == Two(n)
    ensures m == n
  {
    assert Two(m)[0] == Two(n)[0] && Two(m)[1] == Two(n)[1];
  }

  lemma YearTextSign(y: int)
    ensures YearText(y) != "" && (y < 0 <==> YearText(y)[0] == '-')
    ensures y < 0 ==> YearText(y)[1..] == Decimal(-y)
  {
    assert IsDigit(Decimal(if y < 0 then -y else y)[0]);
  }

  lemma DecimalInjective(m: nat, n: nat)
    requires Decimal(m) == Decimal(n)
    ensures m == n
  {
    NumeralOfDecimal(m);
    NumeralOfDecimal(n);
  }

  lemma YearTextInjective(x: int, y: int)
    requires YearText(x) == YearText(y)
    ensures x == y
  {
    YearTextSign(x);
    YearTextSign(y);
    if x < 0 { DecimalInjective(-x, -y); } else { DecimalInjective(x, y); }
  }

  lemma MonthNamesDistinct(m: int, n: int)
    requires 0 <= m < 12 && 0 <= n < 12 && MONTHS[m] == MONTHS[n]
    ensures m == n
  {
    assert MONTHS[m][0] == MONTHS[n][0] && MONTHS[m][1] == MONTHS[n][1] && MONTHS[m][2] == MONTHS[n][2];
  }

  lemma PrefixInjective(f: Fields, g: Fields)
    requires Printable(f) && Printable(g) && Prefix(f) == Prefix(g)
    ensures f.date.day == g.date.day && f.date.month == g.date.month
  {
    assert Two(f.date.day) == Prefix(f)[5..7] && Two(g.date.day) == Prefix(g)[5..7];
    assert MONTHS[f.date.month - 1] == Prefix(f)[8..11] && MONTHS[g.date.month - 1] == Prefix(g)[8..11];
    TwoInjective(f.date.day, g.date.day);
    MonthNamesDistinct(f.date.month - 1, g.date.month - 1);
  }

  lemma SuffixInjective(f: Fields, g: Fields)
    requires Printable(f) && Printable(g) && Suffix(f) == Suffix(g)
    ensures f.hour == g.hour && f.minute == g.minute && f.second == g.second
  {
    assert Two(f.hour) == Suffix(f)[1..3] && Two(g.hour) == Suffix(g)[1..3];
    assert Two(f.minute) == Suffix(f)[4..6] && Two(g.minute) == Suffix(g)[4..6];
    assert Two(f.second) == Suffix(f)[7..9] && Two(g.second) == Suffix(g)[7..9];
    TwoInjective(f.hour, g.hour);
    TwoInjective(f.minute, g.minute);
    TwoInjective(f.second, g.second);
  }

  lemma Middle(p: string, x: string, s: string, q: string, y: string, t: string)
    requires |p| == |q| && |s| == |t| && p + x + s == q + y + t
    ensures p == q && x == y && s == t
  {
    assert p == (p + x + s)[..|p|] && q == (q + y + t)[..|q|];
    assert |x| == |y|;
    assert x == (p + x + s)[|p|..|p| + |x|] && y == (q + y + t)[|q|..|q| + |y|];
    assert s == (p + x + s)[|p| + |x|..] && t == (q + y + t)[|q| + |y|..];
  }

  lemma FieldsPrinted(f: Fields, g: Fields)
    requires Printable(f) && Printable(g)
    requires Prefix(f) + YearText(f.date.year) + Suffix(f) == Prefix(g) + YearText(g.date.year) + Suffix(g)
    ensures f.date == g.date && f.hour == g.hour && f.minute == g.minute && f.second == g.second
  {
    Middle(Prefix(f), YearText(f.date.year), Suffix(f), Prefix(g), YearText(g.date.year), Suffix(g));
    PrefixInjective(f, g);
    SuffixInjective(f, g);
    YearTextInjective(f.date.year, g.date.year);
  }

  /** The printed date determines the second it was printed from. */
  lemma Rfc2822Injective(a: int, b: int)
    requires Rfc2822(a) == Rfc2822(b)
    ensures a == b
  {
    FieldsRecoverSeconds(a);
    FieldsRecoverSeconds(b);
    FieldsPrinted(FieldsOf(a), FieldsOf(b));
  }

  // ----- A reader of its own -----

  /** Days from the Thursday before or on the day of that name. */
  function WeekdayCalled(name: string): Option<int> {
    if name == "Thu" then Some(0) else if name == "Fri" then Some(1) else if name == "Sat" then Some(2)
    else if name == "Sun" then Some(3) else if name == "Mon" then Some(4) else if name == "Tue" then Some(5)
    else if name == "Wed" then Some(6) else None
  }

  function MonthCalled(name: string): Option<int> {
    if name == "Jan" then Some(1) else if name == "Feb" then Some(2) else if name == "Mar" then Some(3)
    else if name == "Apr" then Some(4) else if name == "May" then Some(5) else if name == "Jun" then Some(6)
    else if name == "Jul" then Some(7) else if name == "Aug" then Some(8) else if name == "Sep" then Some(9)
    else if name == "Oct" then Some(10) else if name == "Nov" then Some(11) else if name == "Dec" then Some(12)
    else None
  }

  predicate AllDecimal(s: string) {
    forall i :: 0 <= i < |s| ==> IsDigit(s[i])
  }

  function ReadTwo(s: string): int
    requires |s| == 2
  {
    10 * (s[0] as int - 48) + (s[1] as int - 48)
  }

  function ReadYear(s: string): int {
    if s != "" && s[0] == '-' && AllDecimal(s[1..]) then 0 - Numeral(s[1..])
    else if AllDecimal(s) then Numeral(s) else 0
  }

  /** `Www, DD Mon Y HH:MM:SS +0000`, with a year of any length. */
  function ReadDate(s: string): Option<Fields> {
    var n := |s|;
    if n < 28 || s[3..5] != ", " || s[7..8] != " " || s[11..12] != " " || s[n - 15..n - 14] != " "
       || s[n - 12..n - 11] != ":" || s[n - 9..n - 8] != ":" || s[n - 6..] != " +0000" then None
    else
      var weekday, month := WeekdayCalled(s[..3]), MonthCalled(s[8..11]);
      if weekday.None? || month.None? then None else
      Some(Fields(weekday.value, Date(ReadYear(s[12..n - 15]), month.value, ReadTwo(s[5..7])),
                  ReadTwo(s[n - 14..n - 12]), ReadTwo(s[n - 11..n - 9]), ReadTwo(s[n - 8..n - 6])))
  }

  lemma WeekdayNamesDiffer(i: int, j: int)
    requires 0 <= i < 7 && 0 <= j < 7 && i != j
    ensures DAYS[i] != DAYS[j]
  {
    assert DAYS[i][0] != DAYS[j][0] || DAYS[i][1] != DAYS[j][1];
  }

  lemma MonthNamesDiffer(i: int, j: int)
    requires 0 <= i < 12 && 0 <= j < 12 && i != j
    ensures MONTHS[i] != MONTHS[j]
  {
    assert MONTHS[i][0] != MONTHS[j][0] || MONTHS[i][1] != MONTHS[j][1] || MONTHS[i][2] != MONTHS[j][2];
  }

  lemma WeekdaysDiffer()
    ensures forall i, j :: 0 <= i < j < 7 ==> DAYS[i] != DAYS[j]
  {
    forall i, j | 0 <= i < j < 7 ensures DAYS[i] != DAYS[j] {
      WeekdayNamesDiffer(i, j);
    }
  }

  lemma MonthsDiffer()
    ensures forall i, j :: 0 <= i < j < 12 ==> MONTHS[i] != MONTHS[j]
  {
    forall i, j | 0 <= i < j < 12 ensures MONTHS[i] != MONTHS[j] {
      MonthNamesDiffer(i, j);
    }
  }

  lemma WeekdayReads(weekday: int)
    requires 0 <= weekday < 7
    ensures WeekdayCalled(DAYS[weekday]) == Some(weekday)
  {
    WeekdaysDiffer();
  }

  lemma MonthReads(month: int)
    requires 1 <= month <= 12
    ensures MonthCalled(MONTHS[month - 1]) == Some(month)
  {
    MonthsDiffer();
  }

  lemma TwoReads(n: int)
    requires 0 <= n < 100
    ensures ReadTwo(Two(n)) == n
  {}

  lemma YearReads(y: int)
    ensures ReadYear(YearText(y)) == y
  {
    YearTextSign(y);
    NumeralOfDecimal(if y < 0 then -y else y);
  }

  lemma PrefixPieces(f: Fields, x: string)
    requires Printable(f)
    ensures var s := Prefix(f) + x;
            && s[..3] == DAYS[f.weekday] && s[3..5] == ", " && s[5..7] == Two(f.date.day) && s[7..8] == " "
            && s[8..11] == MONTHS[f.date.month - 1] && s[11..12] == " " && s[12..] == x
  {}

  lemma SuffixPieces(f: Fields)
    requires Printable(f)
    ensures var t := Suffix(f);
            && t[0..1] == " " && t[1..3] == Two(f.hour) && t[3..4] == ":" && t[4..6] == Two(f.minute) && t[6..7] == ":"
            && t[7..9] == Two(f.second) && t[9..] == " +0000"
  {}

  /** Slices near the end of a text, as slices of its last fifteen characters. */
  lemma EndPieces(p: string, t: string)
    requires |t| == 15
    ensures var s, n := p + t, |p| + 15;
            && s[n - 15..n - 14] == t[0..1] && s[n - 14..n - 12] == t[1..3] && s[n - 12..n - 11] == t[3..4]
            && s[n - 11..n - 9] == t[4..6] && s[n - 9..n - 8] == t[6..7] && s[n - 8..n - 6] == t[7..9] && s[n - 6..] == t[9..]
  {}

  lemma YearPiece(p: string, y: string, t: string)
    requires |p| == 12 && |t| == 15
    ensures var s := p + y + t; s == p + (y + t) && |s| == 27 + |y| && s[12..|s| - 15] == y
  {}

  lemma PrintedReads(f: Fields)
    requires Printable(f)
    ensures ReadDate(Prefix(f) + YearText(f.date.year) + Suffix(f)) == Some(f)
  {
    var y, t := YearText(f.date.year), Suffix(f);
    YearTextSign(f.date.year);
    YearPiece(Prefix(f), y, t);
    PrefixPieces(f, y + t);
    SuffixPieces(f);
    EndPieces(Prefix(f) + y, t);
    WeekdayReads(f.weekday);
    MonthReads(f.date.month);
    YearReads(f.date.year);
    TwoReads(f.date.day);
    TwoReads(f.hour);
    TwoReads(f.minute);
    TwoReads(f.second);
  }

  /** Whoever reads the printed date by the names and the places of its parts finds the fields of the second. */
  lemma Rfc2822Reads(secs: int)
    ensures ReadDate(Rfc2822(secs)) == Some(FieldsOf(secs))
  {
    FieldsRecoverSeconds(secs);
    PrintedReads(FieldsOf(secs));
  }

  predicate FitsI64(n: int) {
    -0x8000_0000_0000_0000 <= n < 0x8000_0000_0000_0000
  }

  /** What the algorithm computes from the seconds and the day number `z`. */
  predicate EraFits(secs: int, z: int) {
    && FitsI64(z - 719_468) && 0 <= secs % 86400 < 86400 && 0 < Rem(z - 719_468, 7) + 7 < 14
    && FitsI64(z) && (z < 0 ==> FitsI64(z - 146_096)) && FitsI64(EraOf(z)) && FitsI64(EraOf(z) * 146_097)
    && 0 <= DayOfEra(z) < 146_097
  }

  /** What it computes from the day of the era. */
  predicate DayFits(doe: int) {
    var yoe := YearOfEra(doe);
    var doy := doe - YearBase(yoe);
    var mp := MonthIndex(doy);
    && 0 <= doe - doe / 1460 + doe / 36524 - doe / 146_096 < 146_097 && 0 <= yoe < 400
    && 0 <= YearBase(yoe) < 146_097 && 0 <= doy <= 365
    && 0 < 5 * doy + 2 < 2_000 && 0 <= mp <= 11 && 0 < 153 * mp + 2 < 2_000 && 1 <= doy - MonthStart(mp) + 1 <= 31
  }

  lemma RemBounds(days: int)
    ensures -7 < Rem(days, 7) < 7
  {}

  lemma DayOfYearBounds(doe: int, y: int)
    requires YearHolds(y, doe)
    ensures 0 <= doe - YearBase(y) <= 365 && 0 <= YearBase(y) < 146_097
  {
    QuotientSteps(y);
  }

  lemma MonthBounds(doy: int)
    requires 0 <= doy <= 365
    ensures var mp := MonthIndex(doy); 0 <= mp <= 11 && 1 <= doy - MonthStart(mp) + 1 <= 31
  {
    MonthOfDay(doy);
  }

  lemma DaysFit(doe: int)
    requires 0 <= doe < 146_097
    ensures DayFits(doe)
  {
    var yoe := YearOfEra(doe);
    YearOfEraCorrect(doe);
    DayOfYearBounds(doe, yoe);
    MonthBounds(doe - YearBase(yoe));
  }

  lemma ErasFit(secs: int)
    requires FitsI64(secs)
    ensures EraFits(secs, secs / 86400 + 719_468) && -0x8000_0000_0000 < EraOf(secs / 86400 + 719_468) < 0x8000_0000_0000
  {
    EraRoundsDown(secs / 86400 + 719_468);
    RemBounds(secs / 86400);
  }

  /** For every 64-bit second count, nothing the algorithm computes overflows, the years included. */
  lemma IntermediatesFit(secs: int)
    requires FitsI64(secs)
    ensures var z := secs / 86400 + 719_468; var y := EraOf(z) * 400;
            EraFits(secs, z) && DayFits(DayOfEra(z)) && FitsI64(y) && FitsI64(YearOfEra(DayOfEra(z)) + y) && FitsI64(YearOfEra(DayOfEra(z)) + y + 1)
  {
    ErasFit(secs);
    DaysFit(DayOfEra(secs / 86400 + 719_468));
  }
}
