/**
 The table-free civil date of a release's changelog, against the proleptic
 Gregorian calendar (section 3.2.1 of ISO 8601:2004) counted one day at a time.
 */
module CivilDate {

  newtype i64 = x: int | -0x8000_0000_0000_0000 <= x < 0x8000_0000_0000_0000

  datatype Date = Date(year: int, month: int, day: int)

  // ----- The calendar, one day at a time

  predicate Leap(year: int) {
    year % 4 == 0 && (year % 100 != 0 || year % 400 == 0)
  }

  function DaysIn(year: int, month: int): int {
    if month == 2 then (if Leap(year) then 29 else 28)
    else if month == 4 || month == 6 || month == 9 || month == 11 then 30
    else 31
  }

  predicate Valid(date: Date) {
    1 <= date.month <= 12 && 1 <= date.day <= DaysIn(date.year, date.month)
  }

  function NextDay(date: Date): Date {
    if date.day < DaysIn(date.year, date.month) then date.(day := date.day + 1)
    else if date.month < 12 then Date(date.year, date.month + 1, 1)
    else Date(date.year + 1, 1, 1)
  }

  function PreviousDay(date: Date): Date {
    if date.day > 1 then date.(day := date.day - 1)
    else if date.month > 1 then Date(date.year, date.month - 1, DaysIn(date.year, date.month - 1))
    else Date(date.year - 1, 12, 31)
  }

  /** The date `days` days after 1970-01-01, or before it when negative. */
  function Counted(days: int): Date
    decreases if days < 0 then -days else days
  {
    if days == 0 then Date(1970, 1, 1)
    else if days > 0 then NextDay(Counted(days - 1))
    else PreviousDay(Counted(days + 1))
  }

  predicate Before(a: Date, b: Date) {
    a.year < b.year || (a.year == b.year && (a.month < b.month || (a.month == b.month && a.day < b.day)))
  }

  // ----- Years and months of a 400-year era, which starts on 1 March

  /** The first day of year `yoe` of an era. */
  function YearStart(yoe: int): int {
    365 * yoe + yoe / 4 - yoe / 100
  }

  /** The length of year `yoe` of an era: it ends with the February of the next calendar year. */
  function YearLength(yoe: int): int {
    if Leap(yoe + 1) then 366 else 365
  }

  function YearOfEra(doe: int): int {
    (doe - doe / 1460 + doe / 36524 - doe / 146096) / 365
  }

  /** The first day of the `mp`-th month after February. */
  function MonthStart(mp: int): int {
    (153 * mp + 2) / 5
  }

  function MonthOfYear(doy: int): int {
    (5 * doy + 2) / 153
  }

  /** A day of an era, as centuries, four-year cycles, years and days. */
  datatype Place = Place(century: int, cycle: int, year: int, day: int) {
    ghost predicate Of(doe: int) {
      && 0 <= century < 4 && 0 <= cycle < 25 && 0 <= year < 4 && 0 <= day <= 365
      && doe == 36524 * century + 1461 * cycle + 365 * year + day
      && (day == 365 ==> year == 3 && (cycle < 24 || century == 3))
    }
  }

  lemma PlaceInEra(doe: int) returns (p: Place)
    requires 0 <= doe < 146097
    ensures p.Of(doe)
  {
    var century := if doe == 146096 then 3 else doe / 36524;
    var inCentury := doe - 36524 * century;
    var cycle := inCentury / 1461;
    var inCycle := inCentury - 1461 * cycle;
    var year := if inCycle == 1460 then 3 else inCycle / 365;
    p := Place(century, cycle, year, inCycle - 365 * year);
  }

  /** The quotient the year formula subtracts, one per four-year cycle and one on a late day of the last year. */
  lemma LeapDaysSoFar(doe: int, p: Place)
    requires p.Of(doe)
    ensures var late := 24 * p.century + p.cycle + 365 * p.year + p.day >= 1460;
            doe / 1460 == 25 * p.century + p.cycle + (if late then 1 else 0)
  {
    var rest := 24 * p.century + p.cycle + 365 * p.year + p.day;
    assert doe == 1460 * (25 * p.century + p.cycle) + rest;
  }

  lemma YearStartOfPlace(doe: int, p: Place)
    requires p.Of(doe)
    ensures var yoe := 100 * p.century + 4 * p.cycle + p.year;
            doe - YearStart(yoe) == p.day && p.day < YearLength(yoe)
  {
    var yoe := 100 * p.century + 4 * p.cycle + p.year;
    assert yoe / 4 == 25 * p.century + p.cycle;
    assert yoe / 100 == p.century;
  }

  lemma YearOfPlace(doe: int, p: Place)
    requires p.Of(doe)
    ensures YearOfEra(doe) == 100 * p.century + 4 * p.cycle + p.year
  {
    LeapDaysSoFar(doe, p);
    var yoe := 100 * p.century + 4 * p.cycle + p.year;
    if doe == 146096 {
    } else {
      assert doe / 36524 == p.century && doe / 146096 == 0;
      var late := 24 * p.century + p.cycle + 365 * p.year + p.day >= 1460;
      assert doe - doe / 1460 + doe / 36524 == 365 * yoe + p.day - (if late then 1 else 0);
    }
  }

  /** The year formula is right: it names the year the day falls in. */
  lemma YearOfEraExact(doe: int)
    requires 0 <= doe < 146097
    ensures 0 <= YearOfEra(doe) < 400
    ensures 0 <= doe - YearStart(YearOfEra(doe)) < YearLength(YearOfEra(doe))
  {
    var p := PlaceInEra(doe);
    YearOfPlace(doe, p);
    YearStartOfPlace(doe, p);
  }

  /** No other year of the era contains the day. */
  lemma YearOfEraUnique(doe: int, yoe: int)
    requires 0 <= yoe < 400 && 0 <= doe - YearStart(yoe) < YearLength(yoe)
    ensures 0 <= doe < 146097 && YearOfEra(doe) == yoe
  {
    var p := Place(yoe / 100, yoe % 100 / 4, yoe % 4, doe - YearStart(yoe));
    assert yoe / 4 == 25 * p.century + p.cycle;
    assert p.Of(doe);
    YearOfPlace(doe, p);
  }

  /** The month formula is right for every day of a year of 366. */
  lemma MonthOfYearExact(doy: int)
    requires 0 <= doy < 366
    ensures 0 <= MonthOfYear(doy) < 12
    ensures MonthStart(MonthOfYear(doy)) <= doy < MonthStart(MonthOfYear(doy) + 1)
  {
  }

  // ----- The formula

  /** The date of day `yoe`, `doy` of an era: March is month 0 of the year, and January and February close it. */
  function DateInEra(era: int, yoe: int, doy: int): Date {
    var mp := MonthOfYear(doy);
    var month := if mp < 10 then mp + 3 else mp - 9;
    var y := yoe + era * 400;
    Date(if month <= 2 then y + 1 else y, month, doy - MonthStart(mp) + 1)
  }

  /** The date of a day number, in unbounded integers. */
  function FromDays(days: int): Date {
    var z := days + 719468;
    var era := z / 146097;
    var doe := z - era * 146097;
    var yoe := YearOfEra(doe);
    DateInEra(era, yoe, doe - YearStart(yoe))
  }

  /** The bounds that keep the year and month steps inside an `i64`. */
  lemma YearInRange(doe: int)
    requires 0 <= doe < 146097
    ensures var yoe := (doe - doe / 1460 + doe / 36524 - doe / 146096) / 365;
            0 <= yoe < 400 && 0 <= doe - (365 * yoe + yoe / 4 - yoe / 100) < 366
  {
    YearOfEraExact(doe);
  }

  lemma MonthInRange(doy: int)
    requires 0 <= doy < 366
    ensures 0 <= (5 * doy + 2) / 153 < 12
  {
  }

  lemma FromDaysSteps(days: int, era: int, doe: int, yoe: int, doy: int, mp: int)
    requires era == (days + 719468) / 146097 && doe == days + 719468 - era * 146097
    requires yoe == (doe - doe / 1460 + doe / 36524 - doe / 146096) / 365
    requires doy == doe - (365 * yoe + yoe / 4 - yoe / 100)
    requires mp == (5 * doy + 2) / 153
    ensures var m := if mp < 10 then mp + 3 else mp - 9;
            var y := yoe + era * 400;
            FromDays(days) == Date(if m <= 2 then y + 1 else y, m, doy - (153 * mp + 2) / 5 + 1)
  {
    assert yoe == YearOfEra(doe);
    assert doy == doe - YearStart(yoe);
    assert mp == MonthOfYear(doy);
    assert MonthStart(mp) == (153 * mp + 2) / 5;
    hide YearOfEra, YearStart, MonthOfYear, MonthStart;
  }

  /**
   `civil_date`, every intermediate a 64-bit signed integer. The divisions that are
   not Euclidean in the source have operands that are never negative.
   */
  function CivilDate(unixSeconds: i64): (date: Date)
    ensures date == FromDays(unixSeconds as int / 86400)
  {
    hide FromDays, DateInEra, YearLength, MonthStart, YearStart, YearOfEra, MonthOfYear;
    var days := unixSeconds / 86400;
    var z := days + 719468;
    var era := z / 146097;
    var doe := z - era * 146097;
    YearInRange(doe as int);
    var yoe := (doe - doe / 1460 + doe / 36524 - doe / 146096) / 365;
    var y := yoe + era * 400;
    var doy := doe - (365 * yoe + yoe / 4 - yoe / 100);
    MonthInRange(doy as int);
    var mp := (5 * doy + 2) / 153;
    var d := doy - (153 * mp + 2) / 5 + 1;
    var m := if mp < 10 then mp + 3 else mp - 9;
    var year := if m <= 2 then y + 1 else y;
    FromDaysSteps(days as int, era as int, doe as int, yoe as int, doy as int, mp as int);
    Date(year as int, m as int, d as int)
  }

  /** The year, counted from March, a date falls in, and its day in that year. */
  function MarchYear(date: Date): int {
    if date.month <= 2 then date.year - 1 else date.year
  }

  function MarchMonth(date: Date): int {
    if date.month <= 2 then date.month + 9 else date.month - 3
  }

  /** The day number of a date: the inverse direction, from the month lengths. */
  function ToDays(date: Date): int {
    var y := MarchYear(date);
    y / 400 * 146097 + YearStart(y % 400) + MonthStart(MarchMonth(date)) + date.day - 1 - 719468
  }

  // ----- The formula is the calendar

  lemma LeapRepeats(year: int, eras: int)
    ensures Leap(year + 400 * eras) == Leap(year)
  {
    Remainder4(year, 100 * eras);
    Remainder100(year, 4 * eras);
    Remainder400(year, eras);
  }

  lemma Remainder4(n: int, k: int)
    ensures (n + 4 * k) % 4 == n % 4
  {
  }

  lemma Remainder100(n: int, k: int)
    ensures (n + 100 * k) % 100 == n % 100
  {
  }

  lemma Remainder400(n: int, k: int)
    ensures (n + 400 * k) % 400 == n % 400
  {
  }

  lemma DateInEraValid(era: int, yoe: int, doy: int)
    requires 0 <= yoe < 400 && 0 <= doy < YearLength(yoe)
    ensures Valid(DateInEra(era, yoe, doy))
  {
    MonthOfYearExact(doy);
    LeapRepeats(yoe + 1, era);
  }

  /** A month's span in the year is its length on the calendar. */
  lemma MonthSpan(era: int, yoe: int, doy: int)
    requires 0 <= yoe < 400 && 0 <= doy < YearLength(yoe)
    ensures var mp, date := MonthOfYear(doy), DateInEra(era, yoe, doy);
            DaysIn(date.year, date.month) == (if mp < 11 then MonthStart(mp + 1) else YearLength(yoe)) - MonthStart(mp)
  {
    MonthOfYearExact(doy);
    LeapRepeats(yoe + 1, era);
  }

  lemma NextInMonth(doy: int)
    requires 0 <= doy < 365
    ensures MonthOfYear(doy + 1) ==
            if MonthOfYear(doy) < 11 && doy + 1 == MonthStart(MonthOfYear(doy) + 1) then MonthOfYear(doy) + 1
            else MonthOfYear(doy)
  {
    MonthOfYearExact(doy);
    MonthOfYearExact(doy + 1);
  }

  lemma NextInEra(era: int, yoe: int, doy: int)
    requires 0 <= yoe < 400 && 0 <= doy < YearLength(yoe)
    ensures NextDay(DateInEra(era, yoe, doy)) ==
            if doy + 1 < YearLength(yoe) then DateInEra(era, yoe, doy + 1)
            else if yoe < 399 then DateInEra(era, yoe + 1, 0)
            else DateInEra(era + 1, 0, 0)
  {
    hide DaysIn, Leap;
    MonthSpan(era, yoe, doy);
    MonthOfYearExact(doy);
    if doy + 1 < YearLength(yoe) {
      NextInMonth(doy);
    }
  }

  lemma FromDaysInEra(era: int, yoe: int, doy: int)
    requires 0 <= yoe < 400 && 0 <= doy < YearLength(yoe)
    ensures FromDays(era * 146097 + YearStart(yoe) + doy - 719468) == DateInEra(era, yoe, doy)
  {
    hide YearStart, DateInEra, YearOfEra, YearLength;
    var doe := YearStart(yoe) + doy;
    YearOfEraUnique(doe, yoe);
    var z := era * 146097 + doe;
    assert z / 146097 == era;
  }

  /** The place of a day number in its era. */
  lemma PlaceOfDays(days: int) returns (era: int, yoe: int, doy: int)
    ensures 0 <= yoe < 400 && 0 <= doy < YearLength(yoe)
    ensures days == era * 146097 + YearStart(yoe) + doy - 719468
    ensures FromDays(days) == DateInEra(era, yoe, doy)
  {
    hide YearStart, DateInEra, YearOfEra, YearLength;
    var z := days + 719468;
    era := z / 146097;
    var doe := z - era * 146097;
    YearOfEraExact(doe);
    yoe := YearOfEra(doe);
    doy := doe - YearStart(yoe);
  }

  lemma YearStartStep(yoe: int)
    requires 0 <= yoe < 400
    ensures yoe < 399 ==> YearStart(yoe + 1) == YearStart(yoe) + YearLength(yoe)
    ensures yoe == 399 ==> YearStart(yoe) + YearLength(yoe) == 146097
  {
    assert (yoe + 1) / 4 == yoe / 4 + (if (yoe + 1) % 4 == 0 then 1 else 0);
    assert (yoe + 1) / 100 == yoe / 100 + (if (yoe + 1) % 100 == 0 then 1 else 0);
    assert yoe == 399 ==> Leap(yoe + 1);
    assert yoe < 399 ==> (yoe + 1) % 400 != 0;
  }

  lemma YearStartPositive(yoe: int)
    ensures YearLength(yoe) > 0 && YearStart(0) == 0
  {
  }

  /** One more day number is one more day. */
  lemma FromDaysNext(days: int)
    ensures Valid(FromDays(days))
    ensures FromDays(days + 1) == NextDay(FromDays(days))
  {
    hide FromDays, DateInEra, NextDay, Valid, YearStart, YearLength;
    var era, yoe, doy := PlaceOfDays(days);
    DateInEraValid(era, yoe, doy);
    NextInEra(era, yoe, doy);
    YearStartStep(yoe);
    if doy + 1 < YearLength(yoe) {
      FromDaysInEra(era, yoe, doy + 1);
    } else if yoe < 399 {
      YearStartPositive(yoe + 1);
      FromDaysInEra(era, yoe + 1, 0);
    } else {
      YearStartPositive(0);
      FromDaysInEra(era + 1, 0, 0);
    }
  }

  lemma PreviousUndoesNext(date: Date)
    requires Valid(date)
    ensures PreviousDay(NextDay(date)) == date && Before(date, NextDay(date))
  {
  }

  lemma FirstDay()
    ensures FromDays(0) == Date(1970, 1, 1)
  {
    hide FromDays;
    assert YearStart(369) == 134774;
    FromDaysInEra(4, 369, 306);
    assert MonthOfYear(306) == 10 && MonthStart(10) == 306;
  }

  /** For every day number, before or after 1970, the formula is the calendar counted day by day. */
  lemma {:induction false} FromDaysIsCounted(days: int)
    ensures FromDays(days) == Counted(days)
    decreases if days < 0 then -days else days
  {
    hide NextDay, PreviousDay, Valid, Before, DateInEra, YearOfEra, YearStart;
    if days == 0 {
      FirstDay();
      assert FromDays(0) == Date(1970, 1, 1);
    } else if days > 0 {
      FromDaysIsCounted(days - 1);
      FromDaysNext(days - 1);
    } else {
      FromDaysIsCounted(days + 1);
      FromDaysNext(days);
      PreviousUndoesNext(FromDays(days));
    }
  }

  /** Every second of an `i64` gets the valid date its day has on the calendar. */
  lemma CivilDateIsCounted(unixSeconds: i64)
    ensures CivilDate(unixSeconds) == Counted(unixSeconds as int / 86400)
    ensures Valid(CivilDate(unixSeconds))
  {
    FromDaysIsCounted(unixSeconds as int / 86400);
    FromDaysNext(unixSeconds as int / 86400);
  }

  /** Dates follow days: a later day has a later date, and only the same day has the same date. */
  lemma {:induction false} FromDaysIncreases(a: int, b: int)
    requires a < b
    ensures Before(FromDays(a), FromDays(b))
    decreases b - a
  {
    hide FromDays, NextDay, PreviousDay, Valid;
    FromDaysNext(b - 1);
    PreviousUndoesNext(FromDays(b - 1));
    if a < b - 1 {
      FromDaysIncreases(a, b - 1);
    }
  }

  lemma CivilDateOrder(a: i64, b: i64)
    ensures Before(CivilDate(a), CivilDate(b)) <==> a as int / 86400 < b as int / 86400
  {
    var dayA, dayB := a as int / 86400, b as int / 86400;
    if dayA < dayB {
      FromDaysIncreases(dayA, dayB);
    } else if dayB < dayA {
      FromDaysIncreases(dayB, dayA);
    }
  }

  /** The month start formula inverts the month formula on the days of a month. */
  lemma MonthOfYearUnique(mp: int, doy: int)
    requires 0 <= mp < 12 && MonthStart(mp) <= doy < MonthStart(mp + 1)
    ensures MonthOfYear(doy) == mp
  {
  }

  lemma DayInMarchYear(date: Date)
    requires Valid(date)
    ensures var mp := MarchMonth(date);
            var doy := MonthStart(mp) + date.day - 1;
            && 0 <= mp < 12
            && MonthStart(mp) <= doy < MonthStart(mp + 1)
            && doy < YearLength(MarchYear(date) % 400)
  {
    var y := MarchYear(date);
    LeapRepeats(y % 400 + 1, y / 400);
    assert y + 1 == y % 400 + 1 + 400 * (y / 400);
  }

  /** Every valid date is the date of exactly its day number. */
  lemma ToDaysInverts(date: Date)
    requires Valid(date)
    ensures FromDays(ToDays(date)) == date
  {
    hide FromDays, Valid, YearLength;
    var y, mp := MarchYear(date), MarchMonth(date);
    var doy := MonthStart(mp) + date.day - 1;
    DayInMarchYear(date);
    MonthOfYearUnique(mp, doy);
    FromDaysInEra(y / 400, y % 400, doy);
    MonthRange(date);
  }

  lemma MonthRange(date: Date)
    requires Valid(date)
    ensures 1 <= date.month <= 12
  {
  }

  /** Days to civil is inverse to civil to days, both ways round. */
  lemma CivilDateInverse(unixSeconds: i64, date: Date)
    requires Valid(date)
    ensures ToDays(CivilDate(unixSeconds)) == unixSeconds as int / 86400
    ensures CivilDate(unixSeconds) == date <==> ToDays(date) == unixSeconds as int / 86400
  {
    var day := unixSeconds as int / 86400;
    FromDaysNext(day);
    DayNumberUnique(day, CivilDate(unixSeconds));
    ToDaysInverts(date);
  }

  lemma DayNumberUnique(day: int, date: Date)
    requires Valid(date) && FromDays(day) == date
    ensures ToDays(date) == day
  {
    ToDaysInverts(date);
    if day < ToDays(date) {
      FromDaysIncreases(day, ToDays(date));
    } else if ToDays(date) < day {
      FromDaysIncreases(ToDays(date), day);
    }
  }
}
