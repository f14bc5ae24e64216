// The Date header: printing a wall-clock second as IMF-fixdate (section
// 7.1.1.1 of RFC 7231) and reading that text back.
module HttpDate {
  import opened Wrappers
  import opened Calendar
  import opened Decimal

  const SECS_PER_DAY := 86_400

  function WeekdayName(weekday: nat): string
    requires weekday < 7
  {
    if weekday == 0 then "Sun" else if weekday == 1 then "Mon" else if weekday == 2 then "Tue"
    else if weekday == 3 then "Wed" else if weekday == 4 then "Thu" else if weekday == 5 then "Fri"
    else "Sat"
  }

  function MonthName(month: int): string
    requires 1 <= month <= 12
  {
    if month == 1 then "Jan" else if month == 2 then "Feb" else if month == 3 then "Mar"
    else if month == 4 then "Apr" else if month == 5 then "May" else if month == 6 then "Jun"
    else if month == 7 then "Jul" else if month == 8 then "Aug" else if month == 9 then "Sep"
    else if month == 10 then "Oct" else if month == 11 then "Nov" else "Dec"
  }

  // Seconds since the epoch to text.
  function Format(secs: nat): string {
    var days := secs / SECS_PER_DAY;
    var secsToday := secs % SECS_PER_DAY;
    var date := CivilFromDays(days);
    CivilSuccessor(days);
    YearFromDay(days, 1970);
    Assemble(WeekdayName((days + 4) % 7), Pad(date.day, 2), MonthName(date.month), Pad(date.year, 4),
             Pad(secsToday / 3600, 2), Pad((secsToday / 60) % 60, 2), Pad(secsToday % 60, 2))
  }

  function Assemble(weekday: string, day: string, month: string, year: string,
                    hour: string, minute: string, second: string): string {
    weekday + ", " + day + " " + month + " " + year + " "
    + hour + ":" + minute + ":" + second + " GMT"
  }

  datatype Stamp = Stamp(weekday: nat, secs: int)

  // The names of section 7.1.1.1 of RFC 7231.
  const WEEKDAYS := ["Sun", "Mon", "Tue", "Wed", "Thu", "Fri", "Sat"]
  const MONTHS := ["Jan", "Feb", "Mar", "Apr", "May", "Jun", "Jul", "Aug", "Sep", "Oct", "Nov", "Dec"]

  // The place of a name in such a list.
  function Place(names: seq<string>, name: string, from: nat): Option<nat>
    decreases |names| - from
  {
    if from >= |names| then None
    else if names[from] == name then Some(from)
    else Place(names, name, from + 1)
  }

  // A reader of IMF-fixdate that knows only the standard's text and the plain
  // calendar.
  function Parse(s: string): Option<Stamp> {
    if |s| != 29 then None
    else
      var day, year := s[5..7], s[12..16];
      var hour, minute, second := s[17..19], s[20..22], s[23..25];
      var weekday, month := Place(WEEKDAYS, s[0..3], 0), Place(MONTHS, s[8..11], 0);
      if !(AllDigits(day) && AllDigits(year) && AllDigits(hour) && AllDigits(minute) && AllDigits(second))
      then None
      else if weekday.None? || month.None? || !Separated(s) then None
      else
        var date := Date(DigitsValue(year), month.value + 1, DigitsValue(day));
        if !ValidDate(date) then None
        else if !(DigitsValue(hour) < 24 && DigitsValue(minute) < 60 && DigitsValue(second) < 60) then None
        else Some(Stamp(weekday.value,
                        DayNumber(date) * SECS_PER_DAY
                        + DigitsValue(hour) * 3600 + DigitsValue(minute) * 60 + DigitsValue(second)))
  }

  // What stands between the fields.
  predicate Separated(s: string)
    requires |s| == 29
  {
    s[3..5] == ", " && s[7] == ' ' && s[11] == ' ' && s[16] == ' ' && s[19] == ':' && s[22] == ':' && s[25..29] == " GMT"
  }

  lemma Slices(weekday: string, day: string, month: string, year: string,
               hour: string, minute: string, second: string)
    requires |weekday| == 3 && |month| == 3 && |year| == 4
    requires |day| == |hour| == |minute| == |second| == 2
    ensures var s := Assemble(weekday, day, month, year, hour, minute, second);
      && |s| == 29 && s[0..3] == weekday && s[5..7] == day && s[8..11] == month && s[12..16] == year
      && s[17..19] == hour && s[20..22] == minute && s[23..25] == second && Separated(s)
  {
  }

  lemma WeekdayNamesDistinct(i: nat, j: nat)
    requires i < 7 && j < 7 && WeekdayName(i)[0] == WeekdayName(j)[0] && WeekdayName(i)[1] == WeekdayName(j)[1]
    ensures i == j
  {
  }

  lemma MonthNamesDistinct(i: nat, j: nat)
    requires 1 <= i <= 12 && 1 <= j <= 12
    requires MonthName(i)[0] == MonthName(j)[0] && MonthName(i)[1] == MonthName(j)[1]
    requires MonthName(i)[2] == MonthName(j)[2]
    ensures i == j
  {
  }

  lemma WeekdayPlaced(i: nat)
    requires i < 7
    ensures |WeekdayName(i)| == 3 && WEEKDAYS[i] == WeekdayName(i)
  {
  }

  lemma MonthPlaced(i: nat)
    requires i < 12
    ensures |MonthName(i + 1)| == 3 && MONTHS[i] == MonthName(i + 1)
  {
  }

  lemma {:induction false} WeekdayFound(i: nat, from: nat)
    requires from <= i < 7
    ensures |WeekdayName(i)| == 3 && Place(WEEKDAYS, WeekdayName(i), from) == Some(i)
    decreases i - from
  {
    hide WeekdayName;
    WeekdayPlaced(i);
    if from < i {
      WeekdayPlaced(from);
      if WeekdayName(from) == WeekdayName(i) {
        WeekdayNamesDistinct(from, i);
      }
      WeekdayFound(i, from + 1);
    }
  }

  lemma {:induction false} MonthFound(i: nat, from: nat)
    requires from <= i < 12
    ensures |MonthName(i + 1)| == 3 && Place(MONTHS, MonthName(i + 1), from) == Some(i)
    decreases i - from
  {
    hide MonthName;
    MonthPlaced(i);
    if from < i {
      MonthPlaced(from);
      if MonthName(from + 1) == MonthName(i + 1) {
        MonthNamesDistinct(from + 1, i + 1);
      }
      MonthFound(i, from + 1);
    }
  }

  const YEAR_10000 := 253_402_300_800

  // A second is printed as text that reads back as that same second and its
  // weekday exactly up to the end of year 9999, where the year outgrows its
  // four digits.
  lemma FormatRoundTrip(secs: nat)
    ensures Parse(Format(secs)) == Some(Stamp((secs / SECS_PER_DAY + 4) % 7, secs))
       <==> secs < YEAR_10000
  {
    hide CivilFromDays, Parse, Format;
    YearFromDay(secs / SECS_PER_DAY, 10_000);
    if secs < YEAR_10000 {
      FormatReadsBack(secs);
    } else {
      FormatTooLong(secs);
    }
  }

  lemma Powers()
    ensures Power10(2) == 100 && Power10(4) == 10_000
  {
  }

  lemma SinceEpoch(days: nat)
    ensures CivilFromDays(days).year >= 1970
  {
    hide CivilFromDays;
    YearFromDay(days, 1970);
  }

  lemma FormatReadsBack(secs: nat)
    requires CivilFromDays(secs / SECS_PER_DAY).year <= 9999
    ensures Parse(Format(secs)) == Some(Stamp((secs / SECS_PER_DAY + 4) % 7, secs))
  {
    hide CivilFromDays, NextDate, DayNumber, Pad, Place, IsLeap, DigitsValue, Separated;
    hide WeekdayName, MonthName, Assemble, Power10, DaysBeforeCivilYear, AllDigits;
    var days, secsToday := secs / SECS_PER_DAY, secs % SECS_PER_DAY;
    var date := CivilFromDays(days);
    CivilSuccessor(days);
    DayNumberOfCivil(days);
    SinceEpoch(days);
    var weekday, month := WeekdayName((days + 4) % 7), MonthName(date.month);
    WeekdayFound((days + 4) % 7, 0);
    MonthFound(date.month - 1, 0);
    Powers();
    PadRoundTrip(date.day, 2);
    PadRoundTrip(date.year, 4);
    PadRoundTrip(secsToday / 3600, 2);
    PadRoundTrip((secsToday / 60) % 60, 2);
    PadRoundTrip(secsToday % 60, 2);
    Slices(weekday, Pad(date.day, 2), month, Pad(date.year, 4),
           Pad(secsToday / 3600, 2), Pad((secsToday / 60) % 60, 2), Pad(secsToday % 60, 2));
  }

  lemma FormatTooLong(secs: nat)
    requires CivilFromDays(secs / SECS_PER_DAY).year > 9999
    ensures Parse(Format(secs)) == None
  {
    hide CivilFromDays, NextDate, WeekdayName, MonthName, Pad, Assemble;
    var days, secsToday := secs / SECS_PER_DAY, secs % SECS_PER_DAY;
    var date := CivilFromDays(days);
    CivilSuccessor(days);
    YearFromDay(days, 1970);
    WeekdayFound((days + 4) % 7, 0);
    MonthFound(date.month - 1, 0);
    assert Power10(2) == 100 && Power10(4) == 10_000;
    PadAtLeast(date.year, 4);
    PadRoundTrip(date.day, 2);
    PadRoundTrip(secsToday / 3600, 2);
    PadRoundTrip((secsToday / 60) % 60, 2);
    PadRoundTrip(secsToday % 60, 2);
    AssembleLength(WeekdayName((days + 4) % 7), Pad(date.day, 2), MonthName(date.month), Pad(date.year, 4),
                   Pad(secsToday / 3600, 2), Pad((secsToday / 60) % 60, 2), Pad(secsToday % 60, 2));
  }

  lemma AssembleLength(weekday: string, day: string, month: string, year: string,
                       hour: string, minute: string, second: string)
    ensures |Assemble(weekday, day, month, year, hour, minute, second)|
         == |weekday| + |day| + |month| + |year| + |hour| + |minute| + |second| + 11
  {
  }
}
