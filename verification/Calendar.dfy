/** Unix time to a civil date and time, in the proleptic Gregorian calendar. */
module Calendar {
  datatype Date = Date(year: int, month: int, day: int)

  datatype DateTime = DateTime(date: Date, hour: int, minute: int, second: int)

  // ---------- the calendar itself ----------

  predicate IsLeap(year: int) { year % 4 == 0 && (year % 100 != 0 || year % 400 == 0) }

  function DaysInMonth(year: int, month: int): int
    requires 1 <= month <= 12
  {
    if month == 2 then (if IsLeap(year) then 29 else 28)
    else if month == 4 || month == 6 || month == 9 || month == 11 then 30
    else 31
  }

  predicate Valid(date: Date) {
    1 <= date.month <= 12 && 1 <= date.day <= DaysInMonth(date.year, date.month)
  }

  predicate ValidTime(t: DateTime) {
    Valid(t.date) && 0 <= t.hour < 24 && 0 <= t.minute < 60 && 0 <= t.second < 60
  }

  function NextDay(date: Date): Date
    requires Valid(date)
  {
    if date.day < DaysInMonth(date.year, date.month) then date.(day := date.day + 1)
    else if date.month < 12 then Date(date.year, date.month + 1, 1)
    else Date(date.year + 1, 1, 1)
  }

  /** Days from the first of January of year 1 to that of `year`. */
  function DaysBeforeYear(year: int): int {
    var y := year - 1;
    365 * y + y / 4 - y / 100 + y / 400
  }

  function DaysBeforeMonth(year: int, month: int): int
    requires 1 <= month <= 13
    decreases month
  {
    if month == 1 then 0 else DaysBeforeMonth(year, month - 1) + DaysInMonth(year, month - 1)
  }

  /** Days since 1970-01-01, by counting whole years, whole months and days. */
  function DayNumber(date: Date): int
    requires Valid(date)
  {
    DaysBeforeYear(date.year) + DaysBeforeMonth(date.year, date.month) + date.day - 719163
  }

  function Seconds(t: DateTime): int
    requires Valid(t.date)
  {
    86400 * DayNumber(t.date) + 3600 * t.hour + 60 * t.minute + t.second
  }

  // ---------- the conversion ----------

  /** Division that rounds toward zero. */
  function Quotient(a: int, b: int): int
    requires b > 0
  {
    if a >= 0 then a / b else -(-a / b)
  }

  /** Which year of its 400-year era a day of the era falls in, counting from March. */
  function YearOfEra(doe: int): int { (doe - doe / 1460 + doe / 36524 - doe / 146096) / 365 }

  /** The days of an era before its `yoe`-th year. */
  function DaysBeforeYearOfEra(yoe: int): int { 365 * yoe + yoe / 4 - yoe / 100 }

  function CivilFromDays(days: int): Date {
    var z := days + 719468;
    var era := Quotient(if z >= 0 then z else z - 146096, 146097);
    var doe := z - era * 146097;
    var yoe := YearOfEra(doe);
    var y := yoe + era * 400;
    var doy := doe - DaysBeforeYearOfEra(yoe);
    var mp := (5 * doy + 2) / 153;
    var d := doy - (153 * mp + 2) / 5 + 1;
    var m := if mp < 10 then mp + 3 else mp - 9;
    Date(if m <= 2 then y + 1 else y, m, d)
  }

  function CivilFromUnix(secs: int): DateTime {
    var rem := secs % 86400;
    DateTime(CivilFromDays(secs / 86400), rem / 3600, rem % 3600 / 60, rem % 60)
  }

  // ---------- the counting is the calendar's ----------

  lemma StepBy4(y: int)
    ensures y / 4 == (y - 1) / 4 + (if y % 4 == 0 then 1 else 0)
  {
  }

  lemma StepBy100(y: int)
    ensures y / 100 == (y - 1) / 100 + (if y % 100 == 0 then 1 else 0)
  {
  }

  lemma StepBy400(y: int)
    ensures y / 400 == (y - 1) / 400 + (if y % 400 == 0 then 1 else 0)
  {
  }

  lemma Multiples(y: int)
    ensures y % 400 == 0 ==> y % 100 == 0
    ensures y % 100 == 0 ==> y % 4 == 0
  {
    if y % 100 == 0 {
      TimesFour(25 * (y / 100));
    }
    if y % 400 == 0 {
      TimesHundred(4 * (y / 400));
    }
  }

  lemma TimesFour(q: int)
    ensures 4 * q % 4 == 0
  {
  }

  lemma TimesHundred(q: int)
    ensures 100 * q % 100 == 0
  {
  }

  lemma YearLength(year: int)
    ensures DaysBeforeYear(year + 1) == DaysBeforeYear(year) + (if IsLeap(year) then 366 else 365)
  {
    StepBy4(year);
    StepBy100(year);
    StepBy400(year);
    Multiples(year);
    assert year + 1 - 1 == year;
    var q4, q100, q400, r4, r100, r400 := year / 4, year / 100, year / 400, year % 4, year % 100, year % 400;
  }

  lemma {:induction false} MonthTotals(year: int)
    ensures DaysBeforeMonth(year, 13) == if IsLeap(year) then 366 else 365
    ensures DaysBeforeMonth(year, 3) == if IsLeap(year) then 60 else 59
  {
    hide IsLeap;
    assert DaysBeforeMonth(year, 3) == DaysBeforeMonth(year, 1) + 31 + DaysInMonth(year, 2);
    assert DaysBeforeMonth(year, 8) == DaysBeforeMonth(year, 3) + 153;
    assert DaysBeforeMonth(year, 13) == DaysBeforeMonth(year, 8) + 153;
  }

  /** Counting agrees with the calendar one day at a time. */
  lemma NextDayNumber(date: Date)
    requires Valid(date)
    ensures Valid(NextDay(date)) && DayNumber(NextDay(date)) == DayNumber(date) + 1
  {
    hide IsLeap;
    if date.day == DaysInMonth(date.year, date.month) && date.month == 12 {
      YearLength(date.year);
      MonthTotals(date.year);
    }
  }

  // ---------- the conversion recombines ----------

  /** Rounding toward zero with the adjustment for negative days is rounding down. */
  lemma EraIsFloor(z: int)
    ensures Quotient(if z >= 0 then z else z - 146096, 146097) == z / 146097
  {
  }

  /** Within a century: four-year cycles of 1461 days, and the year within its cycle. */
  lemma YearOfCycle(c: int, q: int, t: int)
    requires 0 <= c <= 3 && 0 <= q <= 24 && 0 <= t < 1461
    ensures var k := (24 * c + 1461 * q + t) / 1460;
            (1461 * q + t - k) / 365 == 4 * q + (if t < 1460 then t / 365 else 3)
  {
    var k := (24 * c + 1461 * q + t) / 1460;
    if 24 * c + q + t < 1460 {
      assert k == q;
      assert (1460 * q + t) / 365 == 4 * q + t / 365;
    } else {
      assert k == q + 1;
      assert (1460 * q + t - 1) / 365 == 4 * q + (t - 1) / 365;
    }
  }

  lemma YearOfCentury(c: int, r: int)
    requires 0 <= c <= 3 && 0 <= r < 36524
    ensures var y := YearOfEra(36524 * c + r) - 100 * c;
            0 <= y <= 99 && 365 * y + y / 4 <= r < 365 * (y + 1) + (y + 1) / 4
  {
    var q, t := r / 1461, r % 1461;
    var k := (24 * c + r) / 1460;
    assert (36524 * c + r) / 1460 == 25 * c + k;
    assert (36524 * c + r) / 36524 == c;
    assert (36524 * c + r) / 146096 == 0;
    assert YearOfEra(36524 * c + r) == (36500 * c + (r - k)) / 365 == 100 * c + (r - k) / 365;
    YearOfCycle(c, q, t);
  }

  lemma DaysInCenturies(c: int, y: int)
    requires 0 <= c <= 3 && 0 <= y <= 99
    ensures DaysBeforeYearOfEra(100 * c + y) == 36524 * c + 365 * y + y / 4
    ensures y < 99 ==> DaysBeforeYearOfEra(100 * c + y + 1) == 36524 * c + 365 * (y + 1) + (y + 1) / 4
    ensures y == 99 ==> DaysBeforeYearOfEra(100 * c + y + 1) == 36524 * c + 36524
  {
    assert (100 * c + y) / 4 == 25 * c + y / 4 && (100 * c + y) / 100 == c;
    assert (100 * c + y + 1) / 4 == 25 * c + (y + 1) / 4;
    assert (100 * c + y + 1) / 100 == if y == 99 then c + 1 else c;
  }

  /** Every day of an era falls in the year the formula names. */
  lemma YearOfEraRight(doe: int)
    requires 0 <= doe < 146097
    ensures var yoe := YearOfEra(doe);
            && 0 <= yoe <= 399
            && DaysBeforeYearOfEra(yoe) <= doe
            && doe < DaysBeforeYearOfEra(yoe + 1) + (if yoe == 399 then 1 else 0)
  {
    hide YearOfEra, DaysBeforeYearOfEra;
    if doe == 146096 {
      LastDayOfEra();
    } else {
      var c, r := doe / 36524, doe % 36524;
      YearOfCentury(c, r);
      DaysInCenturies(c, YearOfEra(doe) - 100 * c);
    }
  }

  lemma LastDayOfEra()
    ensures YearOfEra(146096) == 399
    ensures DaysBeforeYearOfEra(399) == 145731 && DaysBeforeYearOfEra(400) == 146096
  {
  }

  lemma DaysBeforeMarchYear(era: int, yoe: int)
    requires 0 <= yoe <= 399
    ensures DaysBeforeYear(yoe + era * 400 + 1) == 146097 * era + DaysBeforeYearOfEra(yoe)
  {
    var y := yoe + era * 400;
    assert y / 4 == yoe / 4 + 100 * era && y / 100 == yoe / 100 + 4 * era && y / 400 == era;
  }

  lemma Mod4(x: int, k: int)
    ensures (x + 4 * k) % 4 == x % 4
  {
  }

  lemma Mod100(x: int, k: int)
    ensures (x + 100 * k) % 100 == x % 100
  {
  }

  lemma Mod400(x: int, k: int)
    ensures (x + 400 * k) % 400 == x % 400
  {
  }

  lemma LeapInEra(era: int, yoe: int)
    ensures IsLeap(yoe + era * 400 + 1) <==> IsLeap(yoe + 1)
  {
    Mod4(yoe + 1, 100 * era);
    Mod100(yoe + 1, 4 * era);
    Mod400(yoe + 1, era);
  }

  /** A year counted from March ends with the February of the year it ends in. */
  lemma MarchYearLength(yoe: int)
    requires 0 <= yoe <= 399
    ensures DaysBeforeYearOfEra(yoe + 1) + (if yoe == 399 then 1 else 0) ==
            DaysBeforeYearOfEra(yoe) + (if IsLeap(yoe + 1) then 366 else 365)
  {
    StepBy4(yoe + 1);
    StepBy100(yoe + 1);
    Multiples(yoe + 1);
  }

  /** The days of a year before its `mp`-th month, counting from March. */
  function DaysBeforeMarchMonth(mp: int): int { (153 * mp + 2) / 5 }

  lemma MarchMonth(doy: int)
    requires 0 <= doy <= 365
    ensures var mp := (5 * doy + 2) / 153;
            && 0 <= mp <= 11
            && DaysBeforeMarchMonth(mp) <= doy
            && (mp < 11 ==> doy < DaysBeforeMarchMonth(mp + 1))
  {
  }

  lemma {:induction false} MarchMonthTotals(year: int, mp: int)
    requires 0 <= mp <= 9
    ensures DaysBeforeMonth(year, mp + 3) == DaysBeforeMonth(year, 3) + DaysBeforeMarchMonth(mp)
    ensures DaysInMonth(year, mp + 3) == DaysBeforeMarchMonth(mp + 1) - DaysBeforeMarchMonth(mp)
  {
    hide IsLeap;
    if mp > 0 {
      MarchMonthTotals(year, mp - 1);
    }
  }

  /** The month and day of a day of a year that starts in March of `y`. */
  function MonthAndDay(y: int, doy: int): Date {
    var mp := (5 * doy + 2) / 153;
    var m := if mp < 10 then mp + 3 else mp - 9;
    Date(if m <= 2 then y + 1 else y, m, doy - (153 * mp + 2) / 5 + 1)
  }

  lemma MonthAndDayRight(y: int, doy: int)
    requires 0 <= doy <= (if IsLeap(y + 1) then 365 else 364)
    ensures Valid(MonthAndDay(y, doy))
    ensures DayNumber(MonthAndDay(y, doy)) == DaysBeforeYear(y + 1) - 306 + doy + 1 - 719163
  {
    hide IsLeap, DaysBeforeYear;
    var mp := (5 * doy + 2) / 153;
    MarchMonth(doy);
    if mp < 10 {
      MarchMonthTotals(y, mp);
      MonthTotals(y);
      YearLength(y);
    } else {
      assert DaysBeforeMarchMonth(10) == 306 && DaysBeforeMarchMonth(11) == 337;
    }
  }

  /** The year that starts in March of `y`, and how far into it a day of an era is. */
  lemma DayOfYearRight(era: int, doe: int)
    requires 0 <= doe < 146097
    ensures var yoe := YearOfEra(doe);
            var y, doy := yoe + era * 400, doe - DaysBeforeYearOfEra(yoe);
            && 0 <= doy <= (if IsLeap(y + 1) then 365 else 364)
            && DaysBeforeYear(y + 1) + doy == 146097 * era + doe
  {
    hide YearOfEra, DaysBeforeYearOfEra, IsLeap, DaysBeforeYear;
    YearOfEraRight(doe);
    var yoe := YearOfEra(doe);
    MarchYearLength(yoe);
    LeapInEra(era, yoe);
    DaysBeforeMarchYear(era, yoe);
  }

  lemma CivilIsMonthAndDay(days: int)
    ensures var z := days + 719468;
            var era := z / 146097;
            var doe := z - era * 146097;
            var yoe := YearOfEra(doe);
            0 <= doe < 146097
            && CivilFromDays(days) == MonthAndDay(yoe + era * 400, doe - DaysBeforeYearOfEra(yoe))
  {
    hide YearOfEra, DaysBeforeYearOfEra;
    EraIsFloor(days + 719468);
    hide Quotient;
  }

  /** The date of any day is a date of the calendar, and counting to it gives the day back. */
  lemma CivilFromDaysRight(days: int)
    ensures Valid(CivilFromDays(days))
    ensures DayNumber(CivilFromDays(days)) == days
  {
    hide YearOfEra, DaysBeforeYearOfEra, IsLeap, DaysBeforeYear, CivilFromDays, MonthAndDay, DayNumber, Valid;
    var z := days + 719468;
    var era := z / 146097;
    var doe := z - era * 146097;
    CivilIsMonthAndDay(days);
    DayOfYearRight(era, doe);
    var yoe := YearOfEra(doe);
    MonthAndDayRight(yoe + era * 400, doe - DaysBeforeYearOfEra(yoe));
  }

  // ---------- nothing but the calendar does that ----------

  lemma {:induction false} LaterYearsCountMore(a: int, b: int)
    requires a < b
    ensures DaysBeforeYear(b) >= DaysBeforeYear(a + 1)
    decreases b - a
  {
    hide DaysBeforeYear;
    if a + 1 < b {
      LaterYearsCountMore(a, b - 1);
      YearLength(b - 1);
    }
  }

  lemma {:induction false} LaterMonthsCountMore(year: int, a: int, b: int)
    requires 1 <= a < b <= 13
    ensures DaysBeforeMonth(year, b) >= DaysBeforeMonth(year, a) + DaysInMonth(year, a)
    decreases b - a
  {
    hide IsLeap;
    if a + 1 < b {
      LaterMonthsCountMore(year, a, b - 1);
    }
  }

  predicate Before(a: Date, b: Date) {
    a.year < b.year || (a.year == b.year && (a.month < b.month || (a.month == b.month && a.day < b.day)))
  }

  /** Counting orders the calendar: an earlier date has a smaller number. */
  lemma EarlierCountsLess(a: Date, b: Date)
    requires Valid(a) && Valid(b) && Before(a, b)
    ensures DayNumber(a) < DayNumber(b)
  {
    hide IsLeap, DaysBeforeYear;
    if a.year < b.year {
      LaterYearsCountMore(a.year, b.year);
      YearLength(a.year);
      MonthTotals(a.year);
      LaterMonthsCountMore(a.year, a.month, 13);
      BeforeMonthPositive(b.year, b.month);
    } else if a.month < b.month {
      LaterMonthsCountMore(a.year, a.month, b.month);
    }
  }

  lemma {:induction false} BeforeMonthPositive(year: int, month: int)
    requires 1 <= month <= 13
    ensures DaysBeforeMonth(year, month) >= 0
    decreases month
  {
    hide IsLeap;
    if month > 1 {
      BeforeMonthPositive(year, month - 1);
    }
  }

  /** So a date and its number determine each other, negative numbers included. */
  lemma CivilInverse(date: Date)
    requires Valid(date)
    ensures CivilFromDays(DayNumber(date)) == date
  {
    hide CivilFromDays, DayNumber, Valid;
    var back := CivilFromDays(DayNumber(date));
    CivilFromDaysRight(DayNumber(date));
    if Before(back, date) {
      EarlierCountsLess(back, date);
    } else if Before(date, back) {
      EarlierCountsLess(date, back);
    }
  }

  /** Day 0 is the first of January 1970, and each day's date is the next after the day before's. */
  lemma CivilSteps(days: int)
    ensures CivilFromDays(0) == Date(1970, 1, 1)
    ensures Valid(CivilFromDays(days)) && CivilFromDays(days + 1) == NextDay(CivilFromDays(days))
  {
    EpochDate();
    hide CivilFromDays, DayNumber, Valid, NextDay;
    CivilFromDaysRight(days);
    NextDayNumber(CivilFromDays(days));
    CivilInverse(NextDay(CivilFromDays(days)));
  }

  lemma EpochDate()
    ensures CivilFromDays(0) == Date(1970, 1, 1)
  {
  }

  /** Every timestamp becomes a valid date and time that counts back to it, negative ones included. */
  lemma CivilFromUnixRight(secs: int)
    ensures ValidTime(CivilFromUnix(secs))
    ensures Seconds(CivilFromUnix(secs)) == secs
  {
    hide CivilFromDays, DayNumber, Valid;
    CivilFromDaysRight(secs / 86400);
    OfTheDay(secs % 86400);
  }

  lemma OfTheDay(rem: nat)
    requires rem < 86400
    ensures 0 <= rem / 3600 < 24 && 0 <= rem % 3600 / 60 < 60 && 0 <= rem % 60 < 60
    ensures 3600 * (rem / 3600) + 60 * (rem % 3600 / 60) + rem % 60 == rem
  {
    var hour, left := rem / 3600, rem % 3600;
    var minute, second := left / 60, left % 60;
    assert rem == 60 * (60 * hour + minute) + second;
    SecondOf(60 * hour + minute, second);
  }

  lemma SecondOf(minutes: nat, second: nat)
    requires second < 60
    ensures (60 * minutes + second) % 60 == second
  {
  }
}
