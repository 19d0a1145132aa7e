/** parse_iso8601_utc (src/mal_catalog.cpp): the timestamps MAL writes, read to Unix seconds. */
module Iso8601 {
  import opened Numerals
  import opened Calendar

  // The `digits` lambda: len digits at pos, within [lo, hi].
  function Digits(s: string, pos: nat, len: nat, lo: int, hi: int): Option<int>
  {
    if pos + len > |s| || !AllIn(s[pos..pos + len], Dec) then None
    else
      var v := Value(s[pos..pos + len], Dec);
      if v < lo || v > hi then None else Some(v)
  }

  method ReadDigits(s: string, pos: nat, len: nat, lo: int, hi: int) returns (r: Option<int>)
    ensures r == Digits(s, pos, len, lo, hi)
  {
    if pos + len > |s| { return None; }
    var v := 0;
    ghost var t := s[pos..pos + len];
    for i := 0 to len
      invariant AllIn(t[..i], Dec)
      invariant v == Value(t[..i], Dec)
    {
      var c := s[pos + i];
      assert c == t[i];
      if c < '0' || c > '9' { return None; }
      ValueSnoc(t[..i], c, Dec);
      assert t[..i] + [c] == t[..i + 1];
      v := v * 10 + (c as int - '0' as int);
    }
    assert t[..len] == t;
    return if v < lo || v > hi then None else Some(v);
  }

  // ---- What a timestamp says ----

  datatype Zone = Utc | East(hours: nat, minutes: nat) | West(hours: nat, minutes: nat)

  datatype Stamp = Stamp(date: Date, hour: int, minute: int, second: int, zone: Zone)

  function OffsetSeconds(z: Zone): int {
    match z
    case Utc => 0
    case East(h, m) => h * 3600 + m * 60
    case West(h, m) => -(h * 3600 + m * 60)
  }

  // The field ranges the parser admits: day 31 in every month and second 60 included.
  predicate Admitted(t: Stamp) {
    && 1970 <= t.date.year <= 9999 && 1 <= t.date.month <= 12 && 1 <= t.date.day <= 31
    && 0 <= t.hour <= 23 && 0 <= t.minute <= 59 && 0 <= t.second <= 60
    && (t.zone.Utc? || (t.zone.hours <= 23 && t.zone.minutes <= 59))
  }

  // A time of the calendar and of the clock.
  predicate Proper(t: Stamp) {
    Admitted(t) && ValidDate(t.date) && t.second <= 59
  }

  function Two(n: int): string
    requires 0 <= n < 100
  {
    [DigitChar(n / 10), DigitChar(n % 10)]
  }

  function Written(t: Stamp): string
    requires Admitted(t)
  {
    DateText(t.date) + ClockText(t.hour, t.minute, t.second) + ZoneText(t.zone)
  }

  function DateText(d: Date): string
    requires 0 <= d.year <= 9999 && 1 <= d.month <= 12 && 1 <= d.day <= 31
  {
    Two(d.year / 100) + Two(d.year % 100) + "-" + Two(d.month) + "-" + Two(d.day) + "T"
  }

  function ClockText(h: int, m: int, s: int): string
    requires 0 <= h < 24 && 0 <= m < 60 && 0 <= s <= 60
  {
    Two(h) + ":" + Two(m) + ":" + Two(s)
  }

  function ZoneText(z: Zone): string
    requires !z.Utc? ==> z.hours <= 23 && z.minutes <= 59
  {
    match z
    case Utc => "Z"
    case East(h, m) => "+" + Two(h) + ":" + Two(m)
    case West(h, m) => "-" + Two(h) + ":" + Two(m)
  }

  // Seconds since the epoch by the program's day formula, before the zone is applied.
  function LocalSeconds(t: Stamp): int {
    OnDay(DaysFromCivil(t.date), t.hour, t.minute, t.second)
  }

  function OnDay(days: int, h: int, m: int, s: int): int {
    days * 86400 + h * 3600 + m * 60 + s
  }

  function Seconds(t: Stamp): int {
    LocalSeconds(t) - OffsetSeconds(t.zone)
  }

  // ---- The parser ----

  function Parsed(s: string): int
  {
    if |s| < 19 || s[4] != '-' || s[7] != '-' || s[10] != 'T' || s[13] != ':' || s[16] != ':' then 0
    else
      var y, mo, d := Digits(s, 0, 4, 1970, 9999), Digits(s, 5, 2, 1, 12), Digits(s, 8, 2, 1, 31);
      var hh, mi, ss := Digits(s, 11, 2, 0, 23), Digits(s, 14, 2, 0, 59), Digits(s, 17, 2, 0, 60);
      if y.None? || mo.None? || d.None? || hh.None? || mi.None? || ss.None? then 0
      else
        var secs := DaysFromCivil(Date(y.value, mo.value, d.value)) * 86400
                    + hh.value * 3600 + mi.value * 60 + ss.value;
        if |s| == 20 && s[19] == 'Z' then secs
        else if |s| == 25 && (s[19] == '+' || s[19] == '-') && s[22] == ':' then
          var oh, om := Digits(s, 20, 2, 0, 23), Digits(s, 23, 2, 0, 59);
          if oh.None? || om.None? then 0
          else
            var off := oh.value * 3600 + om.value * 60;
            if s[19] == '+' then secs - off else secs + off
        else 0
  }

  method ParseIso8601Utc(s: string) returns (r: int)
    ensures r == Parsed(s)
  {
    if |s| < 19 || s[4] != '-' || s[7] != '-' || s[10] != 'T' || s[13] != ':' || s[16] != ':' {
      return 0;
    }
    var y := ReadDigits(s, 0, 4, 1970, 9999);
    var mo := ReadDigits(s, 5, 2, 1, 12);
    var d := ReadDigits(s, 8, 2, 1, 31);
    var hh := ReadDigits(s, 11, 2, 0, 23);
    var mi := ReadDigits(s, 14, 2, 0, 59);
    var ss := ReadDigits(s, 17, 2, 0, 60);
    if y.None? || mo.None? || d.None? || hh.None? || mi.None? || ss.None? { return 0; }
    var days := DaysFromCivil(Date(y.value, mo.value, d.value));
    var secs := days * 86400 + hh.value * 3600 + mi.value * 60 + ss.value;
    if |s| == 20 && s[19] == 'Z' { return secs; }
    if |s| == 25 && (s[19] == '+' || s[19] == '-') && s[22] == ':' {
      var oh := ReadDigits(s, 20, 2, 0, 23);
      var om := ReadDigits(s, 23, 2, 0, 59);
      if oh.None? || om.None? { return 0; }
      var off := oh.value * 3600 + om.value * 60;
      return if s[19] == '+' then secs - off else secs + off;
    }
    return 0;
  }

  // ---- Reading back what is written ----

  lemma PairValue(a: char, b: char)
    requires IsDigit(a) && IsDigit(b)
    ensures AllIn([a, b], Dec) && Value([a, b], Dec) == DigitIn(a, Dec) * 10 + DigitIn(b, Dec)
  {
    ValueOne(a, Dec);
    ValueSnoc([a], b, Dec);
    assert [a] + [b] == [a, b];
  }

  // A two-digit field is read wherever the text holds it.
  lemma TwoDigits(s: string, pos: nat, n: int, lo: int, hi: int)
    requires 0 <= n < 100 && lo <= n <= hi && pos + 2 <= |s|
    requires s[pos] == Two(n)[0] && s[pos + 1] == Two(n)[1]
    ensures Digits(s, pos, 2, lo, hi) == Some(n)
  {
    PairValue(DigitChar(n / 10), DigitChar(n % 10));
    assert s[pos..pos + 2] == Two(n);
  }

  lemma FourDigits(s: string, n: int)
    requires 1970 <= n <= 9999 && |s| >= 4 && s[..4] == Two(n / 100) + Two(n % 100)
    ensures Digits(s, 0, 4, 1970, 9999) == Some(n)
  {
    PairValue(DigitChar(n / 100 / 10), DigitChar(n / 100 % 10));
    PairValue(DigitChar(n % 100 / 10), DigitChar(n % 100 % 10));
    ValueConcat(Two(n / 100), Two(n % 100), Dec);
    HundredTimes(n / 100);
    assert s[0..4] == s[..4];
  }

  lemma DateFields(d: Date, s: string)
    requires 1970 <= d.year <= 9999 && 1 <= d.month <= 12 && 1 <= d.day <= 31
    requires DateText(d) <= s
    ensures s[4] == '-' && s[7] == '-' && s[10] == 'T'
    ensures Digits(s, 0, 4, 1970, 9999) == Some(d.year)
    ensures Digits(s, 5, 2, 1, 12) == Some(d.month)
    ensures Digits(s, 8, 2, 1, 31) == Some(d.day)
  {
    var t := DateText(d);
    assert forall i :: 0 <= i < 11 ==> s[i] == t[i];
    assert s[..4] == Two(d.year / 100) + Two(d.year % 100);
    FourDigits(s, d.year);
    TwoDigits(s, 5, d.month, 1, 12);
    TwoDigits(s, 8, d.day, 1, 31);
  }

  lemma ClockFields(h: int, m: int, sec: int, s: string)
    requires 0 <= h < 24 && 0 <= m < 60 && 0 <= sec <= 60
    requires |s| >= 19 && s[11..19] == ClockText(h, m, sec)
    ensures s[13] == ':' && s[16] == ':'
    ensures Digits(s, 11, 2, 0, 23) == Some(h)
    ensures Digits(s, 14, 2, 0, 59) == Some(m)
    ensures Digits(s, 17, 2, 0, 60) == Some(sec)
  {
    var t := ClockText(h, m, sec);
    assert forall i :: 0 <= i < 8 ==> s[11 + i] == t[i];
    TwoDigits(s, 11, h, 0, 23);
    TwoDigits(s, 14, m, 0, 59);
    TwoDigits(s, 17, sec, 0, 60);
  }

  lemma ZoneFields(z: Zone, s: string)
    requires !z.Utc? && z.hours <= 23 && z.minutes <= 59
    requires |s| >= 19 && s[19..] == ZoneText(z)
    ensures |s| == 25 && s[22] == ':' && s[19] == if z.East? then '+' else '-'
    ensures Digits(s, 20, 2, 0, 23) == Some(z.hours)
    ensures Digits(s, 23, 2, 0, 59) == Some(z.minutes)
  {
    var t := ZoneText(z);
    assert forall i :: 0 <= i < 6 ==> s[19 + i] == t[i];
    TwoDigits(s, 20, z.hours, 0, 23);
    TwoDigits(s, 23, z.minutes, 0, 59);
  }

  predicate DateAndClockRead(s: string, t: Stamp) {
    && |s| >= 19 && s[4] == '-' && s[7] == '-' && s[10] == 'T' && s[13] == ':' && s[16] == ':'
    && Digits(s, 0, 4, 1970, 9999) == Some(t.date.year) && Digits(s, 5, 2, 1, 12) == Some(t.date.month)
    && Digits(s, 8, 2, 1, 31) == Some(t.date.day) && Digits(s, 11, 2, 0, 23) == Some(t.hour)
    && Digits(s, 14, 2, 0, 59) == Some(t.minute) && Digits(s, 17, 2, 0, 60) == Some(t.second)
  }

  lemma DateAndClock(t: Stamp)
    requires Admitted(t)
    ensures DateAndClockRead(Written(t), t) && Written(t)[19..] == ZoneText(t.zone)
  {
    var s := Written(t);
    assert |DateText(t.date)| == 11 && |ClockText(t.hour, t.minute, t.second)| == 8;
    DateFields(t.date, s);
    assert s[11..19] == ClockText(t.hour, t.minute, t.second);
    ClockFields(t.hour, t.minute, t.second, s);
  }

  lemma ZoneRead(s: string, t: Stamp)
    requires Admitted(t) && DateAndClockRead(s, t) && s[19..] == ZoneText(t.zone)
    ensures Parsed(s) == Seconds(t)
  {
    if t.zone.Utc? {
      assert s[19] == s[19..][0];
    } else {
      ZoneFields(t.zone, s);
    }
  }

  /** Every admitted timestamp, in any zone, parses to its seconds. */
  lemma ParsesWritten(t: Stamp)
    requires Admitted(t)
    ensures Parsed(Written(t)) == Seconds(t)
  {
    DateAndClock(t);
    ZoneRead(Written(t), t);
  }

  // ---- What the parsed number means ----

  // The seconds are the stamp's date and time of day, counted by the program's other formula.
  predicate SplitsBackTo(local: int, t: Stamp) {
    CivilFromDays(local / 86400) == t.date && ClockOf(local) == (t.hour, t.minute, t.second)
  }

  lemma ImproperNeverSplitsBack(local: int, t: Stamp)
    requires Admitted(t) && SplitsBackTo(local, t)
    ensures Proper(t)
  {
    CivilIsDate(local / 86400);
  }

  lemma LocalSplitsExactlyWhen(local: int, t: Stamp)
    requires Admitted(t) && local == LocalSeconds(t)
    ensures SplitsBackTo(local, t) <==> Proper(t)
  {
    if Proper(t) {
      ClockSplits(DaysFromCivil(t.date), t.hour, t.minute, t.second);
      FormulasInverse(0, t.date);
    }
    if SplitsBackTo(local, t) { ImproperNeverSplitsBack(local, t); }
  }

  lemma ParsedLocal(t: Stamp)
    requires Admitted(t)
    ensures Parsed(Written(t)) + OffsetSeconds(t.zone) == LocalSeconds(t)
  {
    ParsesWritten(t);
  }

  /** The seconds an admitted timestamp parses to, moved by exactly its zone's offset, split back into the
  written date and time of day exactly when it is a proper one: a day its month has, a second below 60. */
  lemma SplitsBackExactlyWhen(t: Stamp, local: int)
    requires Admitted(t) && local == Parsed(Written(t)) + OffsetSeconds(t.zone)
    ensures SplitsBackTo(local, t) <==> Proper(t)
  {
    ParsedLocal(t);
    LocalSplitsExactlyWhen(local, t);
  }

  lemma ReadsOn(t: Stamp, day: int)
    requires Admitted(t) && t.zone == Utc && DaysFromCivil(t.date) == day
    ensures Parsed(Written(t)) == OnDay(day, t.hour, t.minute, t.second)
  {
    ParsesWritten(t);
  }

  lemma ThirtyFirstOfFebruary(d: Date)
    requires d.year == 1970 && d.month == 2 && d.day == 31
    ensures DaysFromCivil(d) == 61
  {
  }

  lemma ThirdOfMarch()
    ensures CivilFromDays(61) == Date(1970, 3, 3)
  {
  }

  /** 31 February 1970 reads as 3 March, at any time of day. */
  lemma ImproperDayReadsOtherwise(t: Stamp)
    requires Admitted(t) && t.zone == Utc && t.date.year == 1970 && t.date.month == 2 && t.date.day == 31
    ensures Parsed(Written(t)) == OnDay(61, t.hour, t.minute, t.second)
    ensures CivilFromDays(61) == Date(1970, 3, 3)
  {
    ThirtyFirstOfFebruary(t.date);
    ThirdOfMarch();
    ReadsOn(t, 61);
  }

  /** And a sixty-first second as the next minute, on any day. */
  lemma LeapSecondReadsOtherwise(t: Stamp, day: int)
    requires Admitted(t) && t.zone == Utc && t.second == 60 && DaysFromCivil(t.date) == day
    ensures Parsed(Written(t)) == OnDay(day, t.hour, t.minute + 1, 0)
  {
    ReadsOn(t, day);
  }

  // Hour, minute and second of the day.
  function ClockOf(t: int): (int, int, int) {
    (t % 86400 / 3600, t % 3600 / 60, t % 60)
  }

  lemma DaySplits(q: int, r: int)
    requires 0 <= r < 86400
    ensures (q * 86400 + r) / 86400 == q && (q * 86400 + r) % 86400 == r
  {}

  lemma HourSplits(q: int, r: int)
    requires 0 <= r < 3600
    ensures (q * 3600 + r) / 3600 == q && (q * 3600 + r) % 3600 == r
  {}

  lemma MinuteSplits(q: int, r: int)
    requires 0 <= r < 60
    ensures (q * 60 + r) / 60 == q && (q * 60 + r) % 60 == r
  {}

  lemma ClockSplits(day: int, h: int, m: int, s: int)
    requires 0 <= h < 24 && 0 <= m < 60 && 0 <= s < 60
    ensures OnDay(day, h, m, s) / 86400 == day
    ensures ClockOf(OnDay(day, h, m, s)) == (h, m, s)
  {
    DaySplits(day, h * 3600 + (m * 60 + s));
    HourSplits(h, m * 60 + s);
    HourSplits(day * 24 + h, m * 60 + s);
    MinuteSplits(m, s);
    MinuteSplits((day * 24 + h) * 60 + m, s);
  }

  // Order of the written fields, first difference first.
  predicate WrittenBefore(a: Stamp, b: Stamp) {
    || Earlier(a.date, b.date)
    || (a.date == b.date
        && a.hour * 3600 + a.minute * 60 + a.second < b.hour * 3600 + b.minute * 60 + b.second)
  }

  /** Parsing UTC timestamps is strictly monotone in what is written, both ways. */
  lemma Monotone(a: Stamp, b: Stamp)
    requires Proper(a) && Proper(b) && a.zone == Utc && b.zone == Utc
    ensures WrittenBefore(a, b) <==> Parsed(Written(a)) < Parsed(Written(b))
  {
    ParsesWritten(a);
    ParsesWritten(b);
    DaysFromCivilExact(a.date);
    DaysFromCivilExact(b.date);
    DayNumberMonotone(a.date, b.date);
    ScaledOrder(DaysFromCivil(a.date), a.hour * 3600 + a.minute * 60 + a.second,
                DaysFromCivil(b.date), b.hour * 3600 + b.minute * 60 + b.second);
  }

  lemma ScaledOrder(x: int, p: int, y: int, q: int)
    requires 0 <= p < 86400 && 0 <= q < 86400
    ensures x * 86400 + p < y * 86400 + q <==> x < y || (x == y && p < q)
  {}

  /** A day the month does not have is read as that many days after the month's first. */
  lemma ImproperDayRollsOver(t: Stamp)
    requires Admitted(t)
    ensures Parsed(Written(t))
         == Parsed(Written(t.(date := Date(t.date.year, t.date.month, 1)))) + (t.date.day - 1) * 86400
  {
    ParsesWritten(t);
    ParsesWritten(t.(date := Date(t.date.year, t.date.month, 1)));
    DayOffset(t.date);
  }

  lemma DayOffset(d: Date)
    ensures DaysFromCivil(d) == DaysFromCivil(Date(d.year, d.month, 1)) + d.day - 1
  {}

  // ---- Nothing else parses ----

  lemma DigitCharUnique(c: char)
    requires IsDigit(c)
    ensures c == DigitChar(DigitIn(c, Dec))
  {}

  lemma PairShape(t: string)
    requires |t| == 2 && AllIn(t, Dec)
    ensures 0 <= Value(t, Dec) < 100 && t == Two(Value(t, Dec))
  {
    var a, b := t[0], t[1];
    assert DigitIn(a, Dec) >= 0 && DigitIn(b, Dec) >= 0;
    assert t == [a, b];
    PairValue(a, b);
    DigitCharUnique(a);
    DigitCharUnique(b);
    TwoOf(DigitIn(a, Dec), DigitIn(b, Dec));
  }

  lemma TwoOf(a: nat, b: nat)
    requires a < 10 && b < 10
    ensures Two(a * 10 + b) == [DigitChar(a), DigitChar(b)]
  {
    assert (a * 10 + b) / 10 == a;
  }

  lemma HundredTimes(v: nat)
    ensures Shifted(v, Dec, 2) == v * 100
  {
    assert Shifted(v, Dec, 2) == Times(Shifted(v, Dec, 1), Dec);
    assert Shifted(v, Dec, 1) == Times(Shifted(v, Dec, 0), Dec);
  }

  lemma QuadShape(t: string)
    requires |t| == 4 && AllIn(t, Dec)
    ensures var v := Value(t, Dec); 0 <= v < 10000 && t == Two(v / 100) + Two(v % 100)
  {
    var a, b := t[..2], t[2..];
    assert t == a + b;
    PairShape(a);
    PairShape(b);
    ValueConcat(a, b, Dec);
    HundredTimes(Value(a, Dec));
    assert Value(t, Dec) / 100 == Value(a, Dec);
  }

  lemma ThreeParts(s: string)
    requires |s| >= 19
    ensures s == s[..11] + s[11..19] + s[19..]
  {}

  /** Nothing but an admitted timestamp parses: any other text gives 0, the failure value. */
  lemma OnlyWrittenParses(s: string) returns (t: Stamp)
    requires Parsed(s) != 0
    ensures Admitted(t) && s == Written(t)
  {
    QuadShape(s[0..4]);
    PairShape(s[5..7]);
    PairShape(s[8..10]);
    PairShape(s[11..13]);
    PairShape(s[14..16]);
    PairShape(s[17..19]);
    var d := Date(Value(s[0..4], Dec), Value(s[5..7], Dec), Value(s[8..10], Dec));
    var h, m, sec := Value(s[11..13], Dec), Value(s[14..16], Dec), Value(s[17..19], Dec);
    var zone := OnlyZone(s);
    t := Stamp(d, h, m, sec, zone);
    DateShape(s, d);
    ClockShape(s, h, m, sec);
    ThreeParts(s);
  }

  lemma DateShape(s: string, d: Date)
    requires |s| >= 19 && s[4] == '-' && s[7] == '-' && s[10] == 'T'
    requires 0 <= d.year <= 9999 && 1 <= d.month <= 12 && 1 <= d.day <= 31
    requires s[0..4] == Two(d.year / 100) + Two(d.year % 100)
    requires s[5..7] == Two(d.month) && s[8..10] == Two(d.day)
    ensures s[..11] == DateText(d)
  {
    assert s[..11] == s[0..4] + [s[4]] + s[5..7] + [s[7]] + s[8..10] + [s[10]];
  }

  lemma ClockShape(s: string, h: int, m: int, sec: int)
    requires |s| >= 19 && s[13] == ':' && s[16] == ':'
    requires 0 <= h < 24 && 0 <= m < 60 && 0 <= sec <= 60
    requires s[11..13] == Two(h) && s[14..16] == Two(m) && s[17..19] == Two(sec)
    ensures s[11..19] == ClockText(h, m, sec)
  {
    assert s[11..19] == s[11..13] + [s[13]] + s[14..16] + [s[16]] + s[17..19];
  }

  lemma OnlyZone(s: string) returns (z: Zone)
    requires Parsed(s) != 0
    ensures !z.Utc? ==> z.hours <= 23 && z.minutes <= 59
    ensures s[19..] == ZoneText(z)
  {
    if |s| == 20 {
      z := Utc;
    } else {
      PairShape(s[20..22]);
      PairShape(s[23..25]);
      var h, m := Value(s[20..22], Dec), Value(s[23..25], Dec);
      z := if s[19] == '+' then East(h, m) else West(h, m);
      assert s[19..] == [s[19]] + s[20..22] + [s[22]] + s[23..25];
    }
  }
}
