// The Gregorian calendar and the closed-form day-number conversion behind the
// HTTP Date header.
module Calendar {

  datatype Date = Date(year: int, month: int, day: int)

  const JANUARY := 1
  const FEBRUARY := 2
  const DECEMBER := 12

  // ---------------------------------------------------------------------
  // The plain calendar: what a date is and which date comes next.
  // ---------------------------------------------------------------------

  predicate IsLeap(year: int) {
    year % 4 == 0 && (year % 100 != 0 || year % 400 == 0)
  }

  function DaysInMonth(year: int, month: int): int
    requires 1 <= month <= 12
  {
    if month == FEBRUARY then (if IsLeap(year) then 29 else 28)
    else if month == 4 || month == 6 || month == 9 || month == 11 then 30
    else 31
  }

  predicate ValidDate(date: Date) {
    && 1 <= date.month <= 12
    && 1 <= date.day <= DaysInMonth(date.year, date.month)
  }

  function NextDate(date: Date): Date
    requires ValidDate(date)
  {
    if date.day < DaysInMonth(date.year, date.month) then date.(day := date.day + 1)
    else if date.month < DECEMBER then Date(date.year, date.month + 1, 1)
    else Date(date.year + 1, JANUARY, 1)
  }

  const EPOCH := Date(1970, 1, 1)

  // ---------------------------------------------------------------------
  // The closed form.
  // ---------------------------------------------------------------------

  // Integer division as the source language does it: towards zero.
  function TruncDiv(a: int, b: int): int
    requires b > 0
  {
    if a >= 0 then a / b else -((-a) / b)
  }

  const DAYS_PER_ERA := 146_097
  const EPOCH_SHIFT := 719_468

  // Years of an era start on 1 March; this many days precede year `yoe` of the era.
  function DaysBeforeYear(yoe: int): int {
    365 * yoe + yoe / 4 - yoe / 100
  }

  function YearOfEra(doe: int): int {
    (doe - doe / 1460 + doe / 36_524 - doe / 146_096) / 365
  }

  function Era(z: int): int {
    TruncDiv(if z >= 0 then z else z - 146_096, DAYS_PER_ERA)
  }

  // Day `doy` of a year that starts on 1 March.
  function FromMarch(marchYear: int, doy: int): Date {
    var mp := (5 * doy + 2) / 153;
    var d := doy - (153 * mp + 2) / 5 + 1;
    var m := if mp < 10 then mp + 3 else mp - 9;
    Date(if m <= 2 then marchYear + 1 else marchYear, m, d)
  }

  function CivilFromDays(days: int): Date {
    var z := days + EPOCH_SHIFT;
    var era := Era(z);
    FromEra(era, z - era * DAYS_PER_ERA)
  }

  // Day `doe` of a 400-year era.
  function FromEra(era: int, doe: int): Date {
    var yoe := YearOfEra(doe);
    FromMarch(yoe + era * 400, doe - DaysBeforeYear(yoe))
  }

  lemma EraBounds(z: int)
    ensures 0 <= z - Era(z) * DAYS_PER_ERA < DAYS_PER_ERA
    ensures Era(z) == z / DAYS_PER_ERA
  {
  }

  // ---------------------------------------------------------------------
  // The year and the day within it.
  // ---------------------------------------------------------------------

  // A year of the era is `c` centuries, `q` four-year cycles and `s` years;
  // a day of the era is that many years' days and `t` more.
  ghost predicate YearDay(c: int, q: int, s: int, t: int) {
    && 0 <= c < 4 && 0 <= q < 25 && 0 <= s < 4
    && (0 <= t < 365 || (t == 365 && s == 3 && (q == 24 ==> c == 3)))
  }

  ghost function DayOfEra(c: int, q: int, s: int, t: int): int {
    36_524 * c + 1461 * q + 365 * s + t
  }

  lemma DayOfEraIs(c: int, q: int, s: int, t: int)
    ensures DayOfEra(c, q, s, t) == 36_524 * c + 1461 * q + 365 * s + t
  {
  }

  lemma DayOfEraBounds(c: int, q: int, s: int, t: int)
    requires YearDay(c, q, s, t)
    ensures 0 <= DayOfEra(c, q, s, t) < 146_097
  {
  }

  lemma YearOfEraExact(c: int, q: int, s: int, t: int)
    requires YearDay(c, q, s, t)
    ensures YearOfEra(DayOfEra(c, q, s, t)) == 100 * c + 4 * q + s
    ensures DaysBeforeYear(100 * c + 4 * q + s) + t == DayOfEra(c, q, s, t)
  {
    hide *;
    CenturyCorrection(c, q, s, t);
    var e := CycleCorrection(c, q, s, t);
    DayOfEraIs(c, q, s, t);
    YearOfEraIs(DayOfEra(c, q, s, t), 25 * c + q + e, c, 100 * c + 4 * q + s, t - e);
    DaysBeforeYearIs(c, q, s, t);
  }

  lemma YearOfEraIs(doe: int, cycles: int, centuries: int, year: int, rest: int)
    requires doe / 1460 == cycles && doe / 36_524 - doe / 146_096 == centuries
    requires doe - cycles + centuries == 365 * year + rest && 0 <= rest < 365
    ensures YearOfEra(doe) == year
  {
    assert (365 * year + rest) / 365 == year by { Quotient365(year, rest); }
  }

  lemma DaysBeforeYearIs(c: int, q: int, s: int, t: int)
    requires YearDay(c, q, s, t)
    ensures DaysBeforeYear(100 * c + 4 * q + s) == 36_524 * c + 1461 * q + 365 * s
  {
    assert (100 * c + 4 * q + s) / 4 == 25 * c + q;
    assert (100 * c + 4 * q + s) / 100 == c;
  }

  lemma Quotient365(k: int, r: int)
    requires 0 <= r < 365
    ensures (365 * k + r) / 365 == k
  {
  }

  lemma Quotient1460(k: int, r: int)
    requires 0 <= r < 1460
    ensures (1460 * k + r) / 1460 == k
  {
  }

  lemma Quotient36524(k: int, r: int)
    requires 0 <= r < 36_524
    ensures (36_524 * k + r) / 36_524 == k
  {
  }

  lemma CenturyCorrection(c: int, q: int, s: int, t: int)
    requires YearDay(c, q, s, t)
    ensures DayOfEra(c, q, s, t) / 36_524 - DayOfEra(c, q, s, t) / 146_096 == c
  {
    var r := 1461 * q + 365 * s + t;
    if r < 36_524 {
      Quotient36524(c, r);
    } else {
      assert c == 3 && q == 24 && s == 3 && t == 365;
    }
  }

  lemma CycleCorrection(c: int, q: int, s: int, t: int) returns (e: int)
    requires YearDay(c, q, s, t)
    ensures DayOfEra(c, q, s, t) / 1460 == 25 * c + q + e
    ensures 0 <= t - e < 365
  {
    var r := 24 * c + q + 365 * s + t;
    e := if r >= 1460 then 1 else 0;
    var k := 25 * c + q + e;
    Quotient1460(k, r - 1460 * e);
    assert DayOfEra(c, q, s, t) == 1460 * k + (r - 1460 * e);
  }

  lemma FromEraExact(era: int, c: int, q: int, s: int, t: int)
    requires YearDay(c, q, s, t)
    ensures FromEra(era, DayOfEra(c, q, s, t)) == FromMarch(400 * era + 100 * c + 4 * q + s, t)
  {
    hide *;
    YearOfEraExact(c, q, s, t);
    FromEraIs(era, DayOfEra(c, q, s, t), 100 * c + 4 * q + s, t);
    assert 100 * c + 4 * q + s + era * 400 == 400 * era + 100 * c + 4 * q + s;
  }

  lemma FromEraIs(era: int, doe: int, yoe: int, doy: int)
    requires YearOfEra(doe) == yoe && DaysBeforeYear(yoe) + doy == doe
    ensures FromEra(era, doe) == FromMarch(yoe + era * 400, doy)
  {
    hide FromMarch, YearOfEra, DaysBeforeYear;
  }

  lemma SplitDayOfEra(doe: int) returns (c: int, q: int, s: int, t: int)
    requires 0 <= doe < DAYS_PER_ERA
    ensures YearDay(c, q, s, t) && DayOfEra(c, q, s, t) == doe
  {
    c := if doe / 36_524 < 3 then doe / 36_524 else 3;
    var u := doe - 36_524 * c;
    q := u / 1461;
    var r := u - 1461 * q;
    s := if r / 365 < 3 then r / 365 else 3;
    t := r - 365 * s;
  }

  // ---------------------------------------------------------------------
  // The month and the day within it, in a year that starts on 1 March.
  // ---------------------------------------------------------------------

  // The closed form month by month.
  function MonthFromMarch(doy: int): (int, int) {
    if doy < 31 then (3, doy + 1) else if doy < 61 then (4, doy - 30) else if doy < 92 then (5, doy - 60)
    else if doy < 122 then (6, doy - 91) else if doy < 153 then (7, doy - 121) else if doy < 184 then (8, doy - 152)
    else if doy < 214 then (9, doy - 183) else if doy < 245 then (10, doy - 213)
    else if doy < 275 then (11, doy - 244) else if doy < 306 then (12, doy - 274)
    else if doy < 337 then (1, doy - 305) else (2, doy - 336)
  }

  lemma FromMarchIs(marchYear: int, doy: int)
    requires 0 <= doy <= 365
    ensures var (month, day) := MonthFromMarch(doy);
      FromMarch(marchYear, doy) == Date(if month <= 2 then marchYear + 1 else marchYear, month, day)
  {
    MonthPart(doy);
  }

  lemma MonthPart(doy: int)
    requires 0 <= doy <= 365
    ensures var mp := (5 * doy + 2) / 153;
      MonthFromMarch(doy) == (if mp < 10 then mp + 3 else mp - 9, doy - (153 * mp + 2) / 5 + 1)
  {
    var mp := (5 * doy + 2) / 153;
    assert 153 * mp <= 5 * doy + 2 < 153 * mp + 153;
    assert (153 * mp + 2) / 5 == DaysBeforeMarchMonth(mp);
  }

  // The days before month `mp` of a year that starts on 1 March.
  function DaysBeforeMarchMonth(mp: int): int {
    if mp <= 0 then 0 else if mp == 1 then 31 else if mp == 2 then 61 else if mp == 3 then 92
    else if mp == 4 then 122 else if mp == 5 then 153 else if mp == 6 then 184 else if mp == 7 then 214
    else if mp == 8 then 245 else if mp == 9 then 275 else if mp == 10 then 306 else 337
  }

  lemma FromMarchNext(marchYear: int, doy: int)
    requires 0 <= doy < 365 || (doy == 365 && IsLeap(marchYear + 1))
    ensures ValidDate(FromMarch(marchYear, doy))
    ensures var last := if IsLeap(marchYear + 1) then 365 else 364;
            NextDate(FromMarch(marchYear, doy))
              == if doy < last then FromMarch(marchYear, doy + 1) else FromMarch(marchYear + 1, 0)
  {
    hide FromMarch, IsLeap;
    FromMarchIs(marchYear, doy);
    if doy < 365 {
      FromMarchIs(marchYear, doy + 1);
    }
    FromMarchIs(marchYear + 1, 0);
  }

  lemma CivilIsFromMarch(days: int) returns (era: int, c: int, q: int, s: int, t: int)
    ensures YearDay(c, q, s, t)
    ensures days + 719_468 == 146_097 * era + DayOfEra(c, q, s, t)
    ensures CivilFromDays(days) == FromMarch(400 * era + 100 * c + 4 * q + s, t)
    ensures t == 365 ==> IsLeap(400 * era + 100 * c + 4 * q + s + 1)
  {
    hide FromMarch, FromEra, Era, IsLeap;
    var z := days + EPOCH_SHIFT;
    EraBounds(z);
    era := Era(z);
    c, q, s, t := SplitDayOfEra(z - era * DAYS_PER_ERA);
    FromEraExact(era, c, q, s, t);
    LeapInEra(era, c, q, s);
  }

  lemma Multiples(k: int, r: int)
    ensures 0 < r <= 4 ==> ((4 * k + r) % 4 == 0 <==> r == 4)
    ensures 0 < r <= 100 ==> ((100 * k + r) % 100 == 0 <==> r == 100)
    ensures 0 < r <= 400 ==> ((400 * k + r) % 400 == 0 <==> r == 400)
  {
    assert 0 < r <= 4 ==> (4 * k + r) / 4 == if r == 4 then k + 1 else k;
    assert 0 < r <= 100 ==> (100 * k + r) / 100 == if r == 100 then k + 1 else k;
    assert 0 < r <= 400 ==> (400 * k + r) / 400 == if r == 400 then k + 1 else k;
  }

  lemma LeapInEra(era: int, c: int, q: int, s: int)
    requires 0 <= c < 4 && 0 <= q < 25 && 0 <= s < 4
    ensures IsLeap(400 * era + 100 * c + 4 * q + s + 1) <==> s == 3 && (q == 24 ==> c == 3)
  {
    Multiples(100 * era + 25 * c + q, s + 1);
    Multiples(4 * era + c, 4 * q + s + 1);
    Multiples(era, 100 * c + 4 * q + s + 1);
    var y := 400 * era + 100 * c + 4 * q + s + 1;
    assert y == 4 * (100 * era + 25 * c + q) + (s + 1);
    assert y == 100 * (4 * era + c) + (4 * q + s + 1);
    assert y == 400 * era + (100 * c + 4 * q + s + 1);
  }

  // Two ways of naming one day agree.
  lemma SplitUnique(era: int, c: int, q: int, s: int, t: int, days: int)
    requires YearDay(c, q, s, t)
    requires days + 719_468 == 146_097 * era + DayOfEra(c, q, s, t)
    ensures CivilFromDays(days) == FromMarch(400 * era + 100 * c + 4 * q + s, t)
  {
    hide *;
    DayOfEraBounds(c, q, s, t);
    CivilInEra(days, era, DayOfEra(c, q, s, t));
    FromEraExact(era, c, q, s, t);
  }

  lemma CivilInEra(days: int, era: int, doe: int)
    requires days + 719_468 == 146_097 * era + doe && 0 <= doe < 146_097
    ensures CivilFromDays(days) == FromEra(era, doe)
  {
    hide FromEra, Era;
    EraUnique(era, doe, days + 719_468);
  }

  lemma EraUnique(era: int, doe: int, z: int)
    requires z == 146_097 * era + doe && 0 <= doe < 146_097
    ensures Era(z) == era
  {
    EraBounds(z);
  }

  // The next day number, in the same year or in the next one.
  lemma NextDaySameYear(era: int, c: int, q: int, s: int, t: int, days: int)
    requires YearDay(c, q, s, t) && YearDay(c, q, s, t + 1)
    requires days + 719_468 == 146_097 * era + DayOfEra(c, q, s, t)
    ensures CivilFromDays(days + 1) == FromMarch(400 * era + 100 * c + 4 * q + s, t + 1)
  {
    hide CivilFromDays, FromMarch;
    SplitUnique(era, c, q, s, t + 1, days + 1);
  }

  lemma NextDayNextYear(era: int, c: int, q: int, s: int, t: int, days: int)
    requires YearDay(c, q, s, t) && !YearDay(c, q, s, t + 1)
    requires days + 719_468 == 146_097 * era + DayOfEra(c, q, s, t)
    ensures CivilFromDays(days + 1) == FromMarch(400 * era + 100 * c + 4 * q + s + 1, 0)
  {
    hide CivilFromDays, FromMarch;
    var year := 400 * era + 100 * c + 4 * q + s + 1;
    if s < 3 {
      FirstDayOfYear(era, c, q, s + 1, days + 1, year);
    } else if q < 24 {
      FirstDayOfYear(era, c, q + 1, 0, days + 1, year);
    } else if c < 3 {
      FirstDayOfYear(era, c + 1, 0, 0, days + 1, year);
    } else {
      FirstDayOfEra(era + 1, days + 1, year);
    }
  }

  lemma FirstDayOfYear(era: int, c: int, q: int, s: int, days: int, year: int)
    requires 0 <= c < 4 && 0 <= q < 25 && 0 <= s < 4
    requires days + 719_468 == 146_097 * era + DayOfEra(c, q, s, 0)
    requires year == 400 * era + 100 * c + 4 * q + s
    ensures CivilFromDays(days) == FromMarch(year, 0)
  {
    hide CivilFromDays, FromMarch;
    SplitUnique(era, c, q, s, 0, days);
  }

  lemma FirstDayOfEra(era: int, days: int, year: int)
    requires days + 719_468 == 146_097 * era && year == 400 * era
    ensures CivilFromDays(days) == FromMarch(year, 0)
  {
    hide *;
    DayZero();
    assert days + 719_468 == 146_097 * era + DayOfEra(0, 0, 0, 0);
    assert year == 400 * era + 100 * 0 + 4 * 0 + 0;
    SplitUnique(era, 0, 0, 0, 0, days);
  }

  lemma DayZero()
    ensures YearDay(0, 0, 0, 0) && DayOfEra(0, 0, 0, 0) == 0
  {
  }

  // ---------------------------------------------------------------------
  // Main results.
  // ---------------------------------------------------------------------

  // Every day number names a real date, and the next day number the next date.
  lemma CivilSuccessor(days: int)
    ensures ValidDate(CivilFromDays(days))
    ensures CivilFromDays(days + 1) == NextDate(CivilFromDays(days))
  {
    var era, c, q, s, t := CivilIsFromMarch(days);
    hide FromMarch, NextDate, ValidDate, CivilFromDays, IsLeap;
    if YearDay(c, q, s, t + 1) {
      NextDaySameYear(era, c, q, s, t, days);
    } else {
      NextDayNextYear(era, c, q, s, t, days);
    }
    LeapInEra(era, c, q, s);
    FromMarchNext(400 * era + 100 * c + 4 * q + s, t);
  }

  // The calendar's own day count: whole years since year 1, whole months of
  // this year, and the day of the month, taken from the epoch.
  function DaysBeforeMonth(year: int, month: int): int
    requires 1 <= month <= 12
  {
    if month == 1 then 0 else DaysBeforeMonth(year, month - 1) + DaysInMonth(year, month - 1)
  }

  function DaysBeforeCivilYear(year: int): int {
    var y := year - 1;
    365 * y + y / 4 - y / 100 + y / 400
  }

  function DayNumber(date: Date): int
    requires ValidDate(date)
  {
    DaysBeforeCivilYear(date.year) + DaysBeforeMonth(date.year, date.month) + date.day - 1 - 719_162
  }

  lemma LeapYearSteps(year: int)
    ensures year / 4 - (year - 1) / 4 == if year % 4 == 0 then 1 else 0
    ensures year / 100 - (year - 1) / 100 == if year % 100 == 0 then 1 else 0
    ensures year / 400 - (year - 1) / 400 == if year % 400 == 0 then 1 else 0
    ensures year % 400 == 0 ==> year % 100 == 0
    ensures year % 100 == 0 ==> year % 4 == 0
  {
  }

  lemma YearLength(year: int)
    ensures DaysBeforeCivilYear(year + 1)
         == DaysBeforeCivilYear(year) + (if IsLeap(year) then 366 else 365)
    ensures DaysBeforeMonth(year, 12) + 31 == (if IsLeap(year) then 366 else 365)
  {
    LeapYearSteps(year);
    MonthTable(year);
  }

  lemma MonthTable(year: int)
    ensures var leap := if IsLeap(year) then 1 else 0;
      && DaysBeforeMonth(year, 1) == 0 && DaysBeforeMonth(year, 2) == 31
      && DaysBeforeMonth(year, 3) == 59 + leap && DaysBeforeMonth(year, 4) == 90 + leap
      && DaysBeforeMonth(year, 5) == 120 + leap && DaysBeforeMonth(year, 6) == 151 + leap
      && DaysBeforeMonth(year, 7) == 181 + leap && DaysBeforeMonth(year, 8) == 212 + leap
      && DaysBeforeMonth(year, 9) == 243 + leap && DaysBeforeMonth(year, 10) == 273 + leap
      && DaysBeforeMonth(year, 11) == 304 + leap && DaysBeforeMonth(year, 12) == 334 + leap
  {
    assert DaysBeforeMonth(year, 4) == DaysBeforeMonth(year, 3) + 31;
    assert DaysBeforeMonth(year, 6) == DaysBeforeMonth(year, 5) + 31;
    assert DaysBeforeMonth(year, 8) == DaysBeforeMonth(year, 7) + 31;
    assert DaysBeforeMonth(year, 10) == DaysBeforeMonth(year, 9) + 30;
  }

  lemma NextDayNumber(date: Date)
    requires ValidDate(date)
    ensures ValidDate(NextDate(date)) && DayNumber(NextDate(date)) == DayNumber(date) + 1
  {
    YearLength(date.year);
  }

  lemma CivilEpoch()
    ensures CivilFromDays(0) == EPOCH && ValidDate(EPOCH) && DayNumber(EPOCH) == 0
  {
    SplitUnique(4, 3, 17, 1, 306, 0);
    hide CivilFromDays;
  }

  lemma CivilDayNumberStep(days: int)
    ensures ValidDate(CivilFromDays(days)) && ValidDate(CivilFromDays(days + 1))
    ensures DayNumber(CivilFromDays(days + 1)) == DayNumber(CivilFromDays(days)) + 1
  {
    CivilSuccessor(days);
    NextDayNumber(CivilFromDays(days));
  }

  // Day number to date and back, for every day number.
  lemma {:induction false} DayNumberOfCivil(days: int)
    ensures ValidDate(CivilFromDays(days)) && DayNumber(CivilFromDays(days)) == days
    decreases if days >= 0 then days else -days
  {
    hide CivilFromDays, DayNumber, NextDate, ValidDate;
    if days == 0 {
      CivilEpoch();
    } else if days > 0 {
      DayNumberOfCivil(days - 1);
      CivilDayNumberStep(days - 1);
    } else {
      DayNumberOfCivil(days + 1);
      CivilDayNumberStep(days);
    }
  }

  lemma DayWithinYear(date: Date)
    requires ValidDate(date)
    ensures DaysBeforeCivilYear(date.year) <= DayNumber(date) + 719_162
          < DaysBeforeCivilYear(date.year + 1)
  {
    MonthTable(date.year);
    YearLength(date.year);
  }

  lemma {:induction false} YearsMonotone(a: int, b: int)
    requires a <= b
    ensures DaysBeforeCivilYear(a) <= DaysBeforeCivilYear(b)
    decreases b - a
  {
    if a < b {
      YearLength(a);
      YearsMonotone(a + 1, b);
    }
  }

  // Distinct dates have distinct day numbers.
  lemma DayNumberInjective(a: Date, b: Date)
    requires ValidDate(a) && ValidDate(b) && DayNumber(a) == DayNumber(b)
    ensures a == b
  {
    hide DaysBeforeCivilYear, DaysBeforeMonth, DayNumber;
    DayWithinYear(a);
    DayWithinYear(b);
    if a.year < b.year {
      YearsMonotone(a.year + 1, b.year);
    } else if b.year < a.year {
      YearsMonotone(b.year + 1, a.year);
    } else {
      SameYearInjective(a, b);
    }
  }

  lemma SameYearInjective(a: Date, b: Date)
    requires ValidDate(a) && ValidDate(b) && DayNumber(a) == DayNumber(b) && a.year == b.year
    ensures a == b
  {
    hide DaysBeforeCivilYear, DaysBeforeMonth;
    MonthTable(a.year);
  }

  // Later years have later days: a bound on the day number bounds the year.
  lemma YearFromDay(days: int, year: int)
    ensures CivilFromDays(days).year < year <==> days < DaysBeforeCivilYear(year) - 719_162
  {
    hide CivilFromDays, DaysBeforeCivilYear;
    DayNumberOfCivil(days);
    var date := CivilFromDays(days);
    DayWithinYear(date);
    if date.year < year {
      YearsMonotone(date.year + 1, year);
    } else {
      YearsMonotone(year, date.year);
    }
  }

  // Date to day number and back, for every date of the calendar.
  lemma CivilOfDayNumber(date: Date)
    requires ValidDate(date)
    ensures CivilFromDays(DayNumber(date)) == date
  {
    DayNumberOfCivil(DayNumber(date));
    DayNumberInjective(CivilFromDays(DayNumber(date)), date);
  }

  // Inside this range every narrowing cast of the closed form keeps its value:
  // the day of the era fits u32, the era and the year fit i32.
  lemma CastsExact(days: int)
    requires -784_000_000_000 <= days <= 784_000_000_000
    ensures -0x8000_0000 <= Era(days + EPOCH_SHIFT) < 0x8000_0000
    ensures -0x8000_0000 <= Era(days + EPOCH_SHIFT) * 400 < 0x8000_0000
    ensures 0 <= days + EPOCH_SHIFT - Era(days + EPOCH_SHIFT) * DAYS_PER_ERA < 0x1_0000_0000
    ensures -0x8000_0000 <= CivilFromDays(days).year < 0x8000_0000
  {
    var era, c, q, s, t := CivilIsFromMarch(days);
    EraBounds(days + EPOCH_SHIFT);
  }
}
