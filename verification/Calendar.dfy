/**
 * Days since 1970-01-01 as dates of the proleptic Gregorian calendar, by integer arithmetic on
 * 400-year eras that begin on March 1.
 */
module Calendar {

  datatype Date = Date(year: int, month: int, day: int)

  // ---------------------------------------------------------------- the calendar

  predicate IsLeap(year: int) {
    year % 4 == 0 && (year % 100 != 0 || year % 400 == 0)
  }

  function DaysInMonth(year: int, month: int): int {
    if month == 2 then (if IsLeap(year) then 29 else 28)
    else if month == 4 || month == 6 || month == 9 || month == 11 then 30
    else 31
  }

  predicate IsDate(d: Date) {
    1 <= d.month <= 12 && 1 <= d.day <= DaysInMonth(d.year, d.month)
  }

  /** The day after a date. */
  function NextDay(d: Date): Date {
    if d.day < DaysInMonth(d.year, d.month) then Date(d.year, d.month, d.day + 1)
    else if d.month < 12 then Date(d.year, d.month + 1, 1)
    else Date(d.year + 1, 1, 1)
  }

  // ---------------------------------------------------------------- the algorithm

  /** Hinnant's `civil_from_days`. */
  function CivilFromDays(days: int): Date {
    var z := days + 719468;
    var era := z / 146097;
    var doe := z % 146097;
    var yoe := YearOfEra(doe);
    var doy := doe - YearStart(yoe);
    var mp := MonthIndex(doy);
    var month := if mp < 10 then mp + 3 else mp - 9;
    Date(yoe + era * 400 + (if month <= 2 then 1 else 0), month, doy - MonthStart(mp) + 1)
  }

  function YearOfEra(doe: int): int {
    (doe - doe / 1460 + doe / 36524 - doe / 146096) / 365
  }

  /** The days of an era before its year `yoe` (a year begins on March 1). */
  function YearStart(yoe: int): int {
    365 * yoe + yoe / 4 - yoe / 100
  }

  /** The month of a day of the year, March being 0. */
  function MonthIndex(doy: int): int {
    (5 * doy + 2) / 153
  }

  function MonthStart(mp: int): int {
    (153 * mp + 2) / 5
  }

  // ---------------------------------------------------------------- years of an era

  /** How many days the year `yoe` of an era has beyond 365: it ends with February 29 or 28 of
      the next civil year. */
  function LongYear(yoe: int): int {
    if IsLeap(yoe + 1) then 1 else 0
  }

  /** A day as its era, its year of the era and its day of that year. */
  predicate Parts(days: int, era: int, yoe: int, doy: int) {
    && 0 <= yoe < 400
    && 0 <= doy < 365 + LongYear(yoe)
    && days + 719468 == era * 146097 + YearStart(yoe) + doy
  }

  /** The date of such a day. */
  function DateOf(era: int, yoe: int, doy: int): Date {
    var mp := MonthIndex(doy);
    var month := if mp < 10 then mp + 3 else mp - 9;
    Date(yoe + era * 400 + (if month <= 2 then 1 else 0), month, doy - MonthStart(mp) + 1)
  }

  lemma By4(n: int, quotient: int, rest: int)
    requires n == 4 * quotient + rest && 0 <= rest < 4
    ensures n / 4 == quotient && n % 4 == rest
  {
  }

  lemma By100(n: int, quotient: int, rest: int)
    requires n == 100 * quotient + rest && 0 <= rest < 100
    ensures n / 100 == quotient && n % 100 == rest
  {
  }

  /** A year as its century, its four-year cycle and its year of the cycle. */
  lemma YearStartOf(c: int, b: int, a: int)
    requires 0 <= c <= 3 && 0 <= b <= 24 && 0 <= a <= 3
    ensures YearStart(100 * c + 4 * b + a) == 36524 * c + 1461 * b + 365 * a
    ensures LongYear(100 * c + 4 * b + a) == if a == 3 && (b != 24 || c == 3) then 1 else 0
  {
    var y := 100 * c + 4 * b + a;
    By4(y, 25 * c + b, a);
    By100(y, c, 4 * b + a);
    if a == 3 {
      LongYearOf(c, b);
    } else {
      By4(y + 1, 25 * c + b, a + 1);
    }
  }

  /** The years 4, 8, … of a century are long, its hundredth only in the last century. */
  lemma LongYearOf(c: int, b: int)
    requires 0 <= c <= 3 && 0 <= b <= 24
    ensures LongYear(100 * c + 4 * b + 3) == if b != 24 || c == 3 then 1 else 0
  {
    var y := 100 * c + 4 * b + 4;
    By4(y, 25 * c + b + 1, 0);
    if b == 24 {
      By100(y, c + 1, 0);
    } else {
      By100(y, c, 4 * b + 4);
    }
  }

  /** The year formula finds the year a day of the era lies in. */
  lemma YearFormula(yoe: int, doy: int)
    requires 0 <= yoe < 400 && 0 <= doy < 365 + LongYear(yoe)
    ensures 0 <= YearStart(yoe) + doy < 146097
    ensures YearOfEra(YearStart(yoe) + doy) == yoe
  {
    var c, b, a := YearSplit(yoe);
    YearStartOf(c, b, a);
    YearFormulaOf(YearStart(yoe) + doy, c, b, a, doy);
  }

  lemma YearFormulaOf(doe: int, c: int, b: int, a: int, doy: int)
    requires 0 <= c <= 3 && 0 <= b <= 24 && 0 <= a <= 3
    requires 0 <= doy < 365 + if a == 3 && (b != 24 || c == 3) then 1 else 0
    requires doe == 36524 * c + 1461 * b + 365 * a + doy
    ensures YearOfEra(doe) == 100 * c + 4 * b + a
  {
    CenturyFormula(doe, c, 1461 * b + 365 * a + doy);
    CycleFormula(doe, c, b, 365 * a + doy);
    var extra := if 24 * c + b + 365 * a + doy < 1460 then 0 else 1;
    ExtraFits(c, b, a, doy);
    FromQuotients(doe, 25 * c + b + extra, c, 100 * c + 4 * b + a, doy - extra);
  }

  lemma ExtraFits(c: int, b: int, a: int, doy: int)
    requires 0 <= c <= 3 && 0 <= b <= 24 && 0 <= a <= 3
    requires 0 <= doy < 365 + if a == 3 && (b != 24 || c == 3) then 1 else 0
    ensures 0 <= doy - (if 24 * c + b + 365 * a + doy < 1460 then 0 else 1) < 365
  {
  }

  /** The year of the era from the formula's quotients. */
  lemma FromQuotients(doe: int, cycles: int, centuries: int, year: int, day: int)
    requires doe / 1460 == cycles && doe / 36524 - doe / 146096 == centuries
    requires doe - cycles + centuries == 365 * year + day && 0 <= day < 365
    ensures YearOfEra(doe) == year
  {
  }

  lemma CycleFormula(doe: int, c: int, b: int, rest: int)
    requires 0 <= c <= 3 && 0 <= b <= 24 && 0 <= rest <= 1460 && doe == 36524 * c + 1461 * b + rest
    ensures doe / 1460 == 25 * c + b + (if 24 * c + b + rest < 1460 then 0 else 1)
  {
    assert doe == 1460 * (25 * c + b) + (24 * c + b + rest);
  }

  lemma CenturyFormula(doe: int, c: int, rest: int)
    requires 0 <= c <= 3 && 0 <= rest <= (if c == 3 then 36524 else 36523) && doe == 36524 * c + rest
    ensures doe / 36524 - doe / 146096 == c
  {
  }

  /** Every day has its parts. */
  lemma PartsExist(days: int) returns (era: int, yoe: int, doy: int)
    ensures Parts(days, era, yoe, doy)
  {
    var z := days + 719468;
    era := z / 146097;
    var c, b, a, left := DayOfEra(z % 146097);
    yoe, doy := 100 * c + 4 * b + a, left;
    YearStartOf(c, b, a);
  }

  /** A day of an era as its century, its four-year cycle, its year and its day. */
  lemma DayOfEra(doe: int) returns (c: int, b: int, a: int, doy: int)
    requires 0 <= doe < 146097
    ensures 0 <= c <= 3 && 0 <= b <= 24 && 0 <= a <= 3
    ensures 0 <= doy < 365 + if a == 3 && (b != 24 || c == 3) then 1 else 0
    ensures doe == 36524 * c + 1461 * b + 365 * a + doy
  {
    c := if doe / 36524 < 3 then doe / 36524 else 3;
    var rest := doe - 36524 * c;
    b := rest / 1461;
    var left := rest % 1461;
    a := if left / 365 < 3 then left / 365 else 3;
    doy := left - 365 * a;
  }

  /** The algorithm computes the date of the day's parts. */
  lemma CivilIsDateOf(days: int, era: int, yoe: int, doy: int)
    requires Parts(days, era, yoe, doy)
    ensures CivilFromDays(days) == DateOf(era, yoe, doy)
  {
    YearFormula(yoe, doy);
    var z, doe := days + 719468, YearStart(yoe) + doy;
    assert z == era * 146097 + doe;
    assert z / 146097 == era && z % 146097 == doe;
  }

  // ---------------------------------------------------------------- months of a year

  lemma MonthStarts()
    ensures MonthStart(0) == 0 && MonthStart(1) == 31 && MonthStart(2) == 61 && MonthStart(3) == 92
    ensures MonthStart(4) == 122 && MonthStart(5) == 153 && MonthStart(6) == 184 && MonthStart(7) == 214
    ensures MonthStart(8) == 245 && MonthStart(9) == 275 && MonthStart(10) == 306 && MonthStart(11) == 337
    ensures MonthStart(12) == 367
  {
  }

  lemma MonthOf(doy: int) returns (mp: int)
    requires 0 <= doy <= 365
    ensures mp == MonthIndex(doy) && 0 <= mp <= 11 && 153 * mp <= 5 * doy + 2 < 153 * mp + 153
  {
    mp := (5 * doy + 2) / 153;
    assert 5 * doy + 2 == 153 * mp + (5 * doy + 2) % 153;
  }

  /** The month formula finds the month a day of the year lies in, February the last. */
  lemma MonthFormula(year: int, doy: int)
    requires 0 <= doy <= 365
    ensures var mp := MonthIndex(doy);
            && 0 <= mp <= 11 && MonthStart(mp) <= doy < MonthStart(mp + 1)
            && MonthStart(11) == 337
            && (mp < 11 ==>
                  MonthStart(mp + 1) - MonthStart(mp) == DaysInMonth(year, if mp < 10 then mp + 3 else mp - 9))
  {
    var mp := MonthOf(doy);
    MonthStarts();
    assert mp == 0 || mp == 1 || mp == 2 || mp == 3 || mp == 4 || mp == 5
        || mp == 6 || mp == 7 || mp == 8 || mp == 9 || mp == 10 || mp == 11;
  }

  lemma Shifted4(year: int, k: int)
    ensures (year + 4 * k) % 4 == year % 4
  {
    assert year + 4 * k == 4 * (year / 4 + k) + year % 4;
  }

  lemma Shifted100(year: int, k: int)
    ensures (year + 100 * k) % 100 == year % 100
  {
    assert year + 100 * k == 100 * (year / 100 + k) + year % 100;
  }

  lemma Shifted400(year: int, k: int)
    ensures (year + 400 * k) % 400 == year % 400
  {
    assert year + 400 * k == 400 * (year / 400 + k) + year % 400;
  }

  /** The calendar repeats every era. */
  lemma LeapOfEra(era: int, yoe: int)
    ensures IsLeap(yoe + 400 * era) == IsLeap(yoe)
  {
    Shifted4(yoe, 100 * era);
    Shifted100(yoe, 4 * era);
    Shifted400(yoe, era);
    assert yoe + 4 * (100 * era) == yoe + 400 * era && yoe + 100 * (4 * era) == yoe + 400 * era;
  }

  lemma DateOfIsDate(era: int, yoe: int, doy: int)
    requires 0 <= yoe < 400 && 0 <= doy < 365 + LongYear(yoe)
    ensures IsDate(DateOf(era, yoe, doy))
  {
    MonthFormula(DateOf(era, yoe, doy).year, doy);
    LeapOfEra(era, yoe + 1);
  }

  /** Within a year the date advances by one calendar day. */
  lemma NextWithinYear(era: int, yoe: int, doy: int)
    requires 0 <= yoe < 400 && 0 <= doy && doy + 1 < 365 + LongYear(yoe)
    ensures DateOf(era, yoe, doy + 1) == NextDay(DateOf(era, yoe, doy))
  {
    MonthFormula(DateOf(era, yoe, doy).year, doy);
    MonthFormula(DateOf(era, yoe, doy + 1).year, doy + 1);
    LeapOfEra(era, yoe + 1);
  }

  /** The last day of February is followed by March 1. */
  lemma NextAcrossYears(era: int, yoe: int)
    requires 0 <= yoe < 400
    ensures NextDay(DateOf(era, yoe, 364 + LongYear(yoe))) ==
            if yoe < 399 then DateOf(era, yoe + 1, 0) else DateOf(era + 1, 0, 0)
  {
    var last := MonthOf(364 + LongYear(yoe));
    var first := MonthOf(0);
    MonthStarts();
    assert last == 11 && first == 0;
    LeapOfEra(era, yoe + 1);
  }

  lemma YearSplit(yoe: int) returns (c: int, b: int, a: int)
    requires 0 <= yoe < 400
    ensures yoe == 100 * c + 4 * b + a && 0 <= c <= 3 && 0 <= b <= 24 && 0 <= a <= 3
  {
    c := yoe / 100;
    var rest := yoe - 100 * c;
    b := rest / 4;
    a := rest - 4 * b;
  }

  lemma YearsAreConsecutive(yoe: int)
    requires 0 <= yoe < 400
    ensures YearStart(yoe) + 365 + LongYear(yoe) == if yoe < 399 then YearStart(yoe + 1) else 146097
  {
    var c, b, a := YearSplit(yoe);
    YearStartOf(c, b, a);
    if a < 3 {
      YearStartOf(c, b, a + 1);
    } else if b < 24 {
      YearStartOf(c, b + 1, 0);
    } else if c < 3 {
      YearStartOf(c + 1, 0, 0);
    }
  }

  // ---------------------------------------------------------------- the theorems

  lemma Epoch()
    ensures CivilFromDays(0) == Date(1970, 1, 1)
  {
    var date := DateByParts(0, 4, 369, 306);
  }

  lemma CivilIsADate(days: int)
    ensures IsDate(CivilFromDays(days))
  {
    var era, yoe, doy := PartsExist(days);
    CivilIsDateOf(days, era, yoe, doy);
    DateOfIsDate(era, yoe, doy);
  }

  lemma NextPartsWithin(days: int, era: int, yoe: int, doy: int)
    requires Parts(days, era, yoe, doy) && doy + 1 < 365 + LongYear(yoe)
    ensures Parts(days + 1, era, yoe, doy + 1)
  {
  }

  lemma NextPartsAcross(days: int, era: int, yoe: int)
    requires Parts(days, era, yoe, 364 + LongYear(yoe))
    ensures if yoe < 399 then Parts(days + 1, era, yoe + 1, 0) else Parts(days + 1, era + 1, 0, 0)
  {
    YearsAreConsecutive(yoe);
  }

  lemma TomorrowWithin(days: int, era: int, yoe: int, doy: int) returns (date: Date)
    requires Parts(days, era, yoe, doy) && doy + 1 < 365 + LongYear(yoe)
    ensures date == NextDay(DateOf(era, yoe, doy)) && date == CivilFromDays(days + 1)
  {
    NextPartsWithin(days, era, yoe, doy);
    date := DateByParts(days + 1, era, yoe, doy + 1);
    NextWithinYear(era, yoe, doy);
  }

  lemma TomorrowAcross(days: int, era: int, yoe: int, doy: int) returns (date: Date)
    requires Parts(days, era, yoe, doy) && doy == 364 + LongYear(yoe)
    ensures date == (if yoe < 399 then DateOf(era, yoe + 1, 0) else DateOf(era + 1, 0, 0))
    ensures date == CivilFromDays(days + 1)
  {
    NextPartsAcross(days, era, yoe);
    if yoe < 399 {
      date := DateByParts(days + 1, era, yoe + 1, 0);
    } else {
      date := DateByParts(days + 1, era + 1, 0, 0);
    }
  }

  lemma DateByParts(days: int, era: int, yoe: int, doy: int) returns (date: Date)
    requires Parts(days, era, yoe, doy)
    ensures date == DateOf(era, yoe, doy) && date == CivilFromDays(days)
  {
    CivilIsDateOf(days, era, yoe, doy);
    date := DateOf(era, yoe, doy);
  }

  /** The day after a day number is the calendar's next day, for every integer. */
  lemma NextDayFollows(days: int)
    ensures CivilFromDays(days + 1) == NextDay(CivilFromDays(days))
  {
    var era, yoe, doy := PartsExist(days);
    var today := DateByParts(days, era, yoe, doy);
    if doy + 1 < 365 + LongYear(yoe) {
      var tomorrow := TomorrowWithin(days, era, yoe, doy);
    } else {
      NextAcrossYears(era, yoe);
      var tomorrow := TomorrowAcross(days, era, yoe, doy);
    }
  }

  /** Date order: by year, month and day. */
  predicate Before(a: Date, b: Date) {
    || a.year < b.year
    || (a.year == b.year && a.month < b.month)
    || (a.year == b.year && a.month == b.month && a.day < b.day)
  }

  lemma NextDayIsLater(a: Date, b: Date)
    requires IsDate(b)
    ensures a == b || Before(a, b) ==> Before(a, NextDay(b))
  {
  }

  /** Later days have later dates, so no two days share a date. */
  lemma {:induction false} DatesAreInOrder(i: int, j: int)
    requires i < j
    ensures Before(CivilFromDays(i), CivilFromDays(j))
    decreases j - i
  {
    if i < j - 1 {
      DatesAreInOrder(i, j - 1);
    }
    NextDayFollows(j - 1);
    CivilIsADate(j - 1);
    NextDayIsLater(CivilFromDays(i), CivilFromDays(j - 1));
  }

  lemma CivilIsInjective(i: int, j: int)
    ensures CivilFromDays(i) == CivilFromDays(j) ==> i == j
  {
    if i < j {
      DatesAreInOrder(i, j);
    } else if j < i {
      DatesAreInOrder(j, i);
    }
  }
}
