/** Proleptic Gregorian day arithmetic (src/domain.cpp, src/mal_catalog.cpp).

The program holds two unrelated formulas: days to date, and date to days. Both are
measured here against one independent reference, the calendar's own "next day" rule. */
module Calendar {
  datatype Date = Date(year: int, month: int, day: int)

  const EPOCH := Date(1970, 1, 1)

  // C++ integer division: truncates toward zero.
  function TruncDiv(a: int, b: int): int
    requires b > 0
  {
    if a >= 0 then a / b else -((-a) / b)
  }

  // ---- The reference: the Gregorian calendar, one day at a time ----

  predicate IsLeap(year: int) {
    year % 4 == 0 && (year % 100 != 0 || year % 400 == 0)
  }

  function DaysInMonth(year: int, month: int): int
  {
    if month == 2 then (if IsLeap(year) then 29 else 28)
    else if month == 4 || month == 6 || month == 9 || month == 11 then 30
    else 31
  }

  predicate ValidDate(d: Date) {
    1 <= d.month <= 12 && 1 <= d.day <= DaysInMonth(d.year, d.month)
  }

  function NextDay(d: Date): Date
  {
    if d.day < DaysInMonth(d.year, d.month) then Date(d.year, d.month, d.day + 1)
    else if d.month < 12 then Date(d.year, d.month + 1, 1)
    else Date(d.year + 1, 1, 1)
  }

  predicate Earlier(a: Date, b: Date) {
    || a.year < b.year
    || (a.year == b.year && a.month < b.month)
    || (a.year == b.year && a.month == b.month && a.day < b.day)
  }

  // ---- The two formulas of the program ----

  // civil_from_days: days since 1970-01-01 to a date. Past the first line every dividend is
  // non-negative, where C++ and Dafny division agree.
  function CivilFromDays(days: int): Date
  {
    var z := days + 719468;
    var era := TruncDiv(if z >= 0 then z else z - 146096, 146097);
    var doe := z - era * 146097;
    DateInEra(era, doe, YearOfEra(doe))
  }

  // Day doe of an era, given the March-based year of the era it falls in.
  function DateInEra(era: int, doe: int, yoe: int): Date {
    DateInYear(yoe + era * 400, doe - (365 * yoe + yoe / 4 - yoe / 100))
  }

  // The March-based year of a day of the 400-year era.
  function YearOfEra(doe: int): int {
    (doe - doe / 1460 + doe / 36524 - doe / 146096) / 365
  }

  // The date of day doy (from 0) of the March-based year y.
  function DateInYear(y: int, doy: int): Date
  {
    var mp := (5 * doy + 2) / 153;
    var month := if mp < 10 then mp + 3 else mp - 9;
    Date(if month <= 2 then y + 1 else y, month, doy - (153 * mp + 2) / 5 + 1)
  }

  // The era arithmetic of parse_iso8601_utc: a date to days since 1970-01-01.
  function DaysFromCivil(d: Date): int
  {
    var yy := d.year - (if d.month <= 2 then 1 else 0);
    var doy := TruncDiv(153 * (d.month + (if d.month > 2 then -3 else 9)) + 2, 5) + d.day - 1;
    EraStart(yy) + doy - 719468
  }

  // Its first day of the March-based year yy.
  function EraStart(yy: int): int
  {
    var era := TruncDiv(yy, 400);
    var yoe := yy - era * 400;
    era * 146097 + (yoe * 365 + TruncDiv(yoe, 4) - TruncDiv(yoe, 100))
  }

  // ---- Shared coordinates: March-based years ----

  // First day (1 March) of the March-based year y, in days since 0000-03-01.
  function YearStart(y: int): int {
    365 * y + y / 4 - y / 100 + y / 400
  }

  // First day of the March-based month mp within its year.
  function MonthStart(mp: int): int
    requires 0 <= mp <= 12
  {
    (153 * mp + 2) / 5
  }

  // A day of the era written as centuries, four-year cycles, years and days.
  lemma YearOfEraUnique(c: int, f: int, t: int, u: int)
    requires 0 <= c < 4 && 0 <= f < 25 && 0 <= t < 4 && 0 <= u <= 365
    requires u == 365 ==> t == 3
    requires c < 3 && f == 24 ==> 365 * t + u < 1460
    ensures YearOfEra(36524 * c + 1461 * f + 365 * t + u) == 100 * c + 4 * f + t
  {
    var doe := 36524 * c + 1461 * f + 365 * t + u;
    var e := if 24 * c + f + 365 * t + u >= 1460 then 1 else 0;
    var last := if doe == 146096 then 1 else 0;
    assert doe / 1460 == 25 * c + f + e;
    assert doe / 36524 == c + last;
    assert doe / 146096 == last;
  }

  lemma YearStartOf(c: int, f: int, t: int)
    requires 0 <= c < 4 && 0 <= f < 25 && 0 <= t < 4
    ensures YearStart(100 * c + 4 * f + t) == 36524 * c + 1461 * f + 365 * t
  {
    var q := 100 * c + 4 * f + t;
    assert q / 4 == 25 * c + f;
    assert q / 100 == c;
    assert q / 400 == 0;
  }

  lemma EraParts(doe: int) returns (c: int, f: int, t: int, u: int)
    requires 0 <= doe < 146097
    ensures doe == 36524 * c + 1461 * f + 365 * t + u
    ensures 0 <= c < 4 && 0 <= f < 25 && 0 <= t < 4 && 0 <= u <= 365
    ensures u == 365 ==> t == 3
    ensures c < 3 && f == 24 ==> 365 * t + u < 1460
  {
    c := if doe == 146096 then 3 else doe / 36524;
    var r := doe - 36524 * c;
    f := r / 1461;
    var s := r - 1461 * f;
    t := if s == 1460 then 3 else s / 365;
    u := s - 365 * t;
  }

  // The year with a 366th day: the fourth of its cycle, unless the cycle ends a century short of four.
  lemma LongYear(c: int, f: int)
    requires 0 <= c < 4 && 0 <= f < 25 && (c < 3 ==> f < 24)
    ensures YearLengthOf(100 * c + 4 * f + 3) == 366
  {
    var next := 100 * c + 4 * f + 4;
    assert next == 4 * (25 * c + f + 1);
    if f == 24 { assert next == 400; } else { assert next == 100 * c + (4 * f + 4); }
  }

  lemma DayOfYear(c: int, f: int, t: int, u: int)
    requires 0 <= c < 4 && 0 <= f < 25 && 0 <= t < 4 && 0 <= u <= 365
    requires u == 365 ==> t == 3
    requires c < 3 && f == 24 ==> 365 * t + u < 1460
    ensures u < YearLengthOf(100 * c + 4 * f + t)
  {
    if u == 365 { LongYear(c, f); }
  }

  lemma Brackets(doe: int, y: int, u: int)
    requires doe == YearStart(y) + u && 0 <= u < YearLengthOf(y)
    ensures YearStart(y) <= doe < YearStart(y + 1)
  {
    YearLength(y);
  }

  lemma YearOfEraBrackets(doe: int)
    requires 0 <= doe < 146097
    ensures 0 <= YearOfEra(doe) < 400
    ensures YearStart(YearOfEra(doe)) <= doe < YearStart(YearOfEra(doe) + 1)
  {
    var c, f, t, u := EraParts(doe);
    var y := 100 * c + 4 * f + t;
    assert YearOfEra(doe) == y by { YearOfEraUnique(c, f, t, u); }
    assert doe == YearStart(y) + u by { YearStartOf(c, f, t); }
    DayOfYear(c, f, t, u);
    Brackets(doe, y, u);
  }

  // Length of the March-based year y: its February belongs to civil year y + 1.
  function YearLengthOf(y: int): int {
    if IsLeap(y + 1) then 366 else 365
  }

  lemma YearLength(y: int)
    ensures YearStart(y + 1) - YearStart(y) == YearLengthOf(y)
  {
    StepBy4(y);
    StepBy100(y);
    StepBy400(y);
    LeapSum(y + 1);
  }

  lemma LeapSum(n: int)
    ensures (if n % 4 == 0 then 1 else 0) - (if n % 100 == 0 then 1 else 0) + (if n % 400 == 0 then 1 else 0)
         == if IsLeap(n) then 1 else 0
  {
    Hundreds(n);
    FourHundreds(n);
  }

  lemma Hundreds(n: int)
    ensures n % 100 == 0 ==> n % 4 == 0
  {
    assert n == 4 * (25 * (n / 100)) + n % 100;
  }

  lemma FourHundreds(n: int)
    ensures n % 400 == 0 ==> n % 100 == 0
  {
    assert n == 100 * (4 * (n / 400)) + n % 400;
  }

  lemma StepBy4(y: int)
    ensures (y + 1) / 4 - y / 4 == if (y + 1) % 4 == 0 then 1 else 0
  {}

  lemma StepBy100(y: int)
    ensures (y + 1) / 100 - y / 100 == if (y + 1) % 100 == 0 then 1 else 0
  {}

  lemma StepBy400(y: int)
    ensures (y + 1) / 400 - y / 400 == if (y + 1) % 400 == 0 then 1 else 0
  {}

  function MarchYear(d: Date): int {
    if d.month <= 2 then d.year - 1 else d.year
  }

  function MarchMonth(d: Date): int {
    if d.month <= 2 then d.month + 9 else d.month - 3
  }

  // The day number of a date, for every year: the closed form both formulas are compared with.
  function DayNumber(d: Date): int
    requires ValidDate(d)
  {
    YearStart(MarchYear(d)) + MonthStart(MarchMonth(d)) + d.day - 1 - 719468
  }

  lemma EraShift(era: int, yoe: int)
    ensures YearStart(yoe + era * 400) == era * 146097 + YearStart(yoe)
  {
    var y := yoe + era * 400;
    assert y / 4 == era * 100 + yoe / 4;
    assert y / 100 == era * 4 + yoe / 100;
    assert y / 400 == era + yoe / 400;
  }

  lemma DateInYearIsDate(y: int, doy: int)
    requires 0 <= doy < YearLengthOf(y)
    ensures ValidDate(DateInYear(y, doy))
    ensures MarchYear(DateInYear(y, doy)) == y
    ensures DayNumber(DateInYear(y, doy)) == YearStart(y) + doy - 719468
  {
    var mp := (5 * doy + 2) / 153;
    assert mp == 0 || mp == 1 || mp == 2 || mp == 3 || mp == 4 || mp == 5
        || mp == 6 || mp == 7 || mp == 8 || mp == 9 || mp == 10 || mp == 11;
  }

  lemma FlooredEra(z: int, era: int, doe: int)
    requires z == era * 146097 + doe && 0 <= doe < 146097
    ensures TruncDiv(if z >= 0 then z else z - 146096, 146097) == era
  {}

  /** civil_from_days always answers a date of the Gregorian calendar, and the one whose day
  number it was given; no day number is too early or too late. */
  lemma CivilIsDate(days: int)
    ensures ValidDate(CivilFromDays(days))
    ensures DayNumber(CivilFromDays(days)) == days
  {
    var era := (days + 719468) / 146097;
    var doe := (days + 719468) % 146097;
    CivilForm(days, era, doe);
    var y, doy := EraPlace(era, doe);
    DateInYearIsDate(y, doy);
  }

  lemma CivilForm(days: int, era: int, doe: int)
    requires days + 719468 == era * 146097 + doe && 0 <= doe < 146097
    ensures CivilFromDays(days) == DateInEra(era, doe, YearOfEra(doe))
  {
    FlooredEra(days + 719468, era, doe);
  }

  // The March-based year and the day of it that the formula finds.
  lemma EraPlace(era: int, doe: int) returns (y: int, doy: int)
    requires 0 <= doe < 146097
    ensures 0 <= doy < YearLengthOf(y) && YearStart(y) + doy == era * 146097 + doe
    ensures DateInEra(era, doe, YearOfEra(doe)) == DateInYear(y, doy)
  {
    YearOfEraBrackets(doe);
    y, doy := PlaceOf(era, doe, YearOfEra(doe));
  }

  lemma PlaceOf(era: int, doe: int, yoe: int) returns (y: int, doy: int)
    requires 0 <= yoe < 400 && YearStart(yoe) <= doe < YearStart(yoe + 1)
    ensures 0 <= doy < YearLengthOf(y) && YearStart(y) + doy == era * 146097 + doe
    ensures DateInEra(era, doe, yoe) == DateInYear(y, doy)
  {
    y, doy := yoe + era * 400, doe - YearStart(yoe);
    PlaceFits(era, doe, yoe, y, doy);
    EraDateIs(era, doe, yoe, y, doy);
  }

  lemma PlaceFits(era: int, doe: int, yoe: int, y: int, doy: int)
    requires YearStart(yoe) <= doe < YearStart(yoe + 1) && y == yoe + era * 400 && doy == doe - YearStart(yoe)
    ensures 0 <= doy < YearLengthOf(y) && YearStart(y) + doy == era * 146097 + doe
  {
    YearLength(yoe);
    LeapShift(era, yoe + 1);
    assert YearLengthOf(y) == YearLengthOf(yoe);
    EraShift(era, yoe);
  }

  lemma EraDateIs(era: int, doe: int, yoe: int, y: int, doy: int)
    requires 0 <= yoe < 400 && y == yoe + era * 400 && doy == doe - YearStart(yoe)
    ensures DateInEra(era, doe, yoe) == DateInYear(y, doy)
  {
    assert yoe / 400 == 0;
    assert doe - (365 * yoe + yoe / 4 - yoe / 100) == doy;
  }

  lemma LeapShift(era: int, y: int)
    ensures IsLeap(y + era * 400) == IsLeap(y)
  {
    Shift4(era * 100, y);
    Shift100(era * 4, y);
    Shift400(era, y);
  }

  lemma Shift4(n: int, y: int)
    ensures (y + n * 4) % 4 == y % 4
  {}

  lemma Shift100(n: int, y: int)
    ensures (y + n * 100) % 100 == y % 100
  {}

  lemma Shift400(n: int, y: int)
    ensures (y + n * 400) % 400 == y % 400
  {}

  lemma NextDayNumber(d: Date)
    requires ValidDate(d)
    ensures ValidDate(NextDay(d))
    ensures DayNumber(NextDay(d)) == DayNumber(d) + 1
  {
    if d.day == DaysInMonth(d.year, d.month) {
      if d.month == 2 {
        FebruaryEnd(d);
      } else {
        NextMonth(d);
      }
    }
  }

  lemma NextMonth(d: Date)
    requires ValidDate(d) && d.month != 2 && d.day == DaysInMonth(d.year, d.month)
    ensures ValidDate(NextDay(d)) && DayNumber(NextDay(d)) == DayNumber(d) + 1
  {
    MonthEnd(d);
    assert MarchYear(NextDay(d)) == MarchYear(d) && MarchMonth(NextDay(d)) == MarchMonth(d) + 1;
  }

  lemma FebruaryEnd(d: Date)
    requires ValidDate(d) && d.month == 2 && d.day == DaysInMonth(d.year, 2)
    ensures DayNumber(Date(d.year, 3, 1)) == DayNumber(d) + 1
  {
    YearLength(d.year - 1);
    assert MonthStart(11) == 337 && MonthStart(0) == 0;
  }

  lemma MonthEnd(d: Date)
    requires ValidDate(d) && d.month != 2 && d.day == DaysInMonth(d.year, d.month)
    ensures MarchMonth(d) + 1 <= 11
    ensures MonthStart(MarchMonth(d) + 1) == MonthStart(MarchMonth(d)) + d.day
  {
    var m := d.month;
    assert m == 1 || m == 3 || m == 4 || m == 5 || m == 6
        || m == 7 || m == 8 || m == 9 || m == 10 || m == 11 || m == 12;
  }

  lemma YearStartMonotone(x: int, y: int)
    requires x <= y
    ensures YearStart(x) <= YearStart(y)
    ensures x < y ==> YearStart(x + 1) <= YearStart(y)
  {
    assert 365 * (y - x) - (y / 100 - x / 100) >= 0;
  }

  lemma WithinMarchYear(d: Date)
    requires ValidDate(d)
    ensures 0 <= MonthStart(MarchMonth(d)) + d.day - 1 < YearLengthOf(MarchYear(d))
    ensures MarchMonth(d) < 11 ==> MonthStart(MarchMonth(d)) + d.day <= MonthStart(MarchMonth(d) + 1)
  {
    var m := d.month;
    assert m == 1 || m == 2 || m == 3 || m == 4 || m == 5 || m == 6
        || m == 7 || m == 8 || m == 9 || m == 10 || m == 11 || m == 12;
  }

  /** Day numbers follow the calendar order, so distinct dates have distinct day numbers. */
  lemma DayNumberMonotone(a: Date, b: Date)
    requires ValidDate(a) && ValidDate(b)
    ensures Earlier(a, b) <==> DayNumber(a) < DayNumber(b)
    ensures a == b <==> DayNumber(a) == DayNumber(b)
  {
    if Earlier(a, b) { EarlierIsLess(a, b); }
    if Earlier(b, a) { EarlierIsLess(b, a); }
    assert Earlier(a, b) || Earlier(b, a) || a == b;
  }

  lemma EarlierYear(x: int, y: int, u: int, v: int)
    requires x < y && 0 <= u < YearLengthOf(x) && 0 <= v
    ensures YearStart(x) + u < YearStart(y) + v
  {
    YearLength(x);
    YearStartMonotone(x, y);
  }

  lemma EarlierMonth(a: Date, b: Date)
    requires ValidDate(a) && ValidDate(b) && MarchMonth(a) < MarchMonth(b)
    ensures MonthStart(MarchMonth(a)) + a.day < MonthStart(MarchMonth(b)) + b.day
  {
    WithinMarchYear(a);
    assert MonthStart(MarchMonth(a) + 1) <= MonthStart(MarchMonth(b));
  }

  lemma EarlierIsLess(a: Date, b: Date)
    requires ValidDate(a) && ValidDate(b) && Earlier(a, b)
    ensures DayNumber(a) < DayNumber(b)
  {
    if MarchYear(a) < MarchYear(b) {
      WithinMarchYear(a);
      WithinMarchYear(b);
      EarlierYear(MarchYear(a), MarchYear(b), MonthStart(MarchMonth(a)) + a.day - 1,
                  MonthStart(MarchMonth(b)) + b.day - 1);
    } else if MarchMonth(a) < MarchMonth(b) {
      EarlierMonth(a, b);
    }
  }

  lemma CivilEpoch()
    ensures CivilFromDays(0) == EPOCH
  {}

  /** civil_from_days is the Gregorian calendar: day 0 is 1 January 1970, and one day more is
  always the calendar's next day. These two facts determine it on every day number. */
  lemma CivilFollowsCalendar(days: int)
    ensures CivilFromDays(0) == EPOCH
    ensures CivilFromDays(days + 1) == NextDay(CivilFromDays(days))
  {
    CivilEpoch();
    CivilIsDate(days);
    CivilIsDate(days + 1);
    NextDayNumber(CivilFromDays(days));
    SameDayNumber(CivilFromDays(days + 1), NextDay(CivilFromDays(days)));
  }

  lemma SameDayNumber(a: Date, b: Date)
    requires ValidDate(a) && ValidDate(b) && DayNumber(a) == DayNumber(b)
    ensures a == b
  {
    DayNumberMonotone(a, b);
  }

  // Truncating division of a non-positive number, in terms of the flooring one.
  lemma TruncIsCeil(a: int, k: int)
    requires a <= 0 && (k == 4 || k == 100 || k == 400)
    ensures TruncDiv(a, k) == a / k + (if a % k == 0 then 0 else 1)
  {}

  // A March-based year before year 0 as the truncating divisions split it.
  lemma TruncatedYearStart(yy: int)
    ensures EraStart(yy) == YearStart(yy) + (if yy >= 0 || IsLeap(yy) then 0 else 1)
  {
    var era := TruncDiv(yy, 400);
    var yoe := yy - era * 400;
    EraShift(era, yoe);
    LeapShift(era, yoe);
    if yy < 0 { TruncatedYear(yoe); }
  }

  lemma TruncatedYear(yoe: int)
    requires -400 < yoe <= 0
    ensures yoe * 365 + TruncDiv(yoe, 4) - TruncDiv(yoe, 100) == YearStart(yoe) + (if IsLeap(yoe) then 0 else 1)
  {
    TruncIsCeil(yoe, 4);
    TruncIsCeil(yoe, 100);
    TruncIsCeil(yoe, 400);
    assert TruncDiv(yoe, 400) == 0;
    assert yoe % 400 == 0 ==> yoe == 0;
    Hundreds(yoe);
  }

  /** The parser's era arithmetic is exact from March of year 0 on; before that its truncating
  divisions are one day off, except in the March-based years numbered like a leap year. */
  lemma DaysFromCivilExact(d: Date)
    requires ValidDate(d)
    ensures DaysFromCivil(d) == DayNumber(d) <==> MarchYear(d) >= 0 || IsLeap(MarchYear(d))
  {
    TruncatedYearStart(MarchYear(d));
    assert d.month + (if d.month > 2 then -3 else 9) == MarchMonth(d);
  }

  /** The two formulas are inverse: on every day from 1 March of year 0, and on every date
  from there on. */
  lemma FormulasInverse(days: int, d: Date)
    ensures days >= -719468 ==> DaysFromCivil(CivilFromDays(days)) == days
    ensures ValidDate(d) && MarchYear(d) >= 0 ==> CivilFromDays(DaysFromCivil(d)) == d
  {
    CivilIsDate(days);
    DaysFromCivilExact(CivilFromDays(days));
    if days >= -719468 && MarchYear(CivilFromDays(days)) < 0 {
      WithinMarchYear(CivilFromDays(days));
      YearLength(MarchYear(CivilFromDays(days)));
      YearStartMonotone(MarchYear(CivilFromDays(days)), -1);
      assert false;
    }
    if ValidDate(d) && MarchYear(d) >= 0 {
      DaysFromCivilExact(d);
      CivilIsDate(DaysFromCivil(d));
      DayNumberMonotone(CivilFromDays(DaysFromCivil(d)), d);
    }
  }
}
