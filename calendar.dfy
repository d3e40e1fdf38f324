/** Calendar arithmetic behind the weekly agenda: the `Date` objects of
    src/App.js become day numbers (days since 1970-01-01, local time) with a
    time of day, and the `Date` methods the agenda calls become functions on
    them: `getDay`, `getMonday`, `addDays`, `getWeekDays`, the civil date
    read by `toISODate`, and `new Date(string)` on local ISO date-times. */
module Calendar {
  import opened Wrappers
  import opened Text
  import opened Clock

  const MsPerMinute: nat := 60_000
  const MsPerDay: nat := 86_400_000

  type MsOfDay = ms: nat | ms < 86_400_000

  /** A local wall-clock instant: a day number and the milliseconds since
      that day's local midnight. */
  datatype LocalDateTime = LocalDateTime(day: int, ms: MsOfDay)

  /** `getDay()`: 0 is Sunday, 1 Monday, ..., 6 Saturday. Day 0,
      1970-01-01, was a Thursday. */
  function Weekday(day: int): nat
  {
    (day + 4) % 7
  }

  /** `getMonday`: go back `1 - getDay()` days, or 6 days from a Sunday, and
      set the time to midnight. The result is a Monday at midnight, at most
      six days before the given instant. */
  function GetMonday(d: LocalDateTime): (r: LocalDateTime)
    ensures Weekday(r.day) == 1 && r.ms == 0
    ensures r.day <= d.day <= r.day + 6
  {
    var wd := Weekday(d.day);
    var diff := if wd == 0 then -6 else 1 - wd;
    LocalDateTime(d.day + diff, 0)
  }

  /** A week anchor: a Monday at midnight. */
  predicate IsWeekAnchor(d: LocalDateTime)
  {
    Weekday(d.day) == 1 && d.ms == 0
  }

  /** GetMonday picks the most recent Monday: no later Monday lies at or
      before the given day; a Sunday goes back exactly six days, a Wednesday
      two; and an anchor maps to itself, so GetMonday is idempotent. */
  lemma GetMondayIsMostRecentMonday(d: LocalDateTime, m: int)
    requires Weekday(m) == 1 && m <= d.day
    ensures m <= GetMonday(d).day
    ensures Weekday(d.day) == 0 ==> GetMonday(d).day == d.day - 6
    ensures Weekday(d.day) == 3 ==> GetMonday(d).day == d.day - 2
    ensures IsWeekAnchor(d) ==> GetMonday(d) == d
    ensures GetMonday(GetMonday(d)) == GetMonday(d)
  {
  }

  /** `addDays`: the same time of day, n days later (earlier for n < 0). */
  function AddDays(d: LocalDateTime, n: int): LocalDateTime
  {
    LocalDateTime(d.day + n, d.ms)
  }

  /** `getWeekDays`: the seven instants monday + 0 .. monday + 6 days. */
  function GetWeekDays(monday: LocalDateTime): (days: seq<LocalDateTime>)
    ensures |days| == 7
  {
    seq(7, i requires 0 <= i < 7 => AddDays(monday, i))
  }

  /** From an anchor the window is seven consecutive midnights, Monday
      first and Sunday last. */
  lemma WeekWindowMondayToSunday(monday: LocalDateTime)
    requires IsWeekAnchor(monday)
    ensures forall i :: 0 <= i < 7 ==>
              GetWeekDays(monday)[i].day == monday.day + i
              && GetWeekDays(monday)[i].ms == 0
              && Weekday(GetWeekDays(monday)[i].day) == (i + 1) % 7
  {
  }

  /** "Semana ▶": the anchor moves 7 days on. */
  function NextWeek(anchor: LocalDateTime): LocalDateTime
  {
    AddDays(anchor, 7)
  }

  /** "◀ Semana": the anchor moves 7 days back. */
  function PrevWeek(anchor: LocalDateTime): LocalDateTime
  {
    AddDays(anchor, -7)
  }

  /** Paging either way keeps the anchor a Monday at midnight (re-anchoring
      it changes nothing), and the two directions undo each other. */
  lemma PagingKeepsAnchor(anchor: LocalDateTime)
    requires IsWeekAnchor(anchor)
    ensures IsWeekAnchor(NextWeek(anchor)) && IsWeekAnchor(PrevWeek(anchor))
    ensures GetMonday(NextWeek(anchor)) == NextWeek(anchor)
    ensures GetMonday(PrevWeek(anchor)) == PrevWeek(anchor)
    ensures PrevWeek(NextWeek(anchor)) == anchor && NextWeek(PrevWeek(anchor)) == anchor
  {
    GetMondayIsMostRecentMonday(NextWeek(anchor), NextWeek(anchor).day);
    GetMondayIsMostRecentMonday(PrevWeek(anchor), PrevWeek(anchor).day);
  }

  /** A proleptic Gregorian date as `getFullYear()`, `getMonth() + 1` and
      `getDate()` report it. */
  datatype CivilDate = CivilDate(year: int, month: nat, dayOfMonth: nat)

  /** The day number of a civil date (days since 1970-01-01). A day of month
      past the end of its month runs on into the next month. */
  function DaysFromCivil(c: CivilDate): int
    requires 1 <= c.month <= 12
  {
    var y := if c.month <= 2 then c.year - 1 else c.year;
    var era := y / 400;
    var yoe := y % 400;
    var mp := if c.month > 2 then c.month - 3 else c.month + 9;
    var doy := (153 * mp + 2) / 5 + c.dayOfMonth - 1;
    var doe := yoe * 365 + yoe / 4 - yoe / 100 + doy;
    era * 146097 + doe - 719468
  }

  lemma YearOfEraRange(doe: int, a: int, b: int, e: int, yoe: int)
    requires 0 <= doe < 146097
    requires 1460 * a <= doe < 1460 * a + 1460
    requires 36524 * b <= doe < 36524 * b + 36524
    requires 146096 * e <= doe < 146096 * e + 146096
    requires 365 * yoe <= doe - a + b - e < 365 * yoe + 365
    ensures 0 <= yoe < 400
    ensures 365 * yoe <= doe
  {
    assert 0 <= a <= 100 && 0 <= b <= 4 && 0 <= e <= 1;
    assert b <= a;
  }

  lemma YearStartLower(doe: int, a: int, b: int, e: int, yoe: int, q4: int, q100: int)
    requires 0 <= doe < 146097
    requires 1460 * a <= doe < 1460 * a + 1460
    requires 36524 * b <= doe < 36524 * b + 36524
    requires 146096 * e <= doe < 146096 * e + 146096
    requires 365 * yoe <= doe - a + b - e < 365 * yoe + 365
    requires 0 <= yoe < 400 && 365 * yoe <= doe
    requires 4 * q4 <= yoe < 4 * q4 + 4
    requires 100 * q100 <= yoe < 100 * q100 + 100
    ensures 365 * yoe + q4 - q100 <= doe
  {
    assert 1460 * q4 <= doe;
    assert q4 <= a;
    assert 0 <= b <= 4 && 0 <= e <= 1;
    if e == 1 {
      assert doe == 146096 && a == 100 && b == 4;
    } else {
      assert 365 * yoe >= 36524 * b - a + b - 364;
      assert b <= q100;
      assert doe >= 365 * yoe + a - b;
    }
  }

  /** The strict upper bound: the day lies before the start of the next
      year of the era, which is 365 days plus one leap day for each
      multiple of 4 up to it, less the multiples of 100, plus the multiples
      of 400. */
  lemma YearEndUpper(doe: int, a: int, b: int, e: int, yoe: int, r4: int, r100: int, r400: int)
    requires 0 <= doe < 146097
    requires 1460 * a <= doe < 1460 * a + 1460
    requires 36524 * b <= doe < 36524 * b + 36524
    requires 146096 * e <= doe < 146096 * e + 146096
    requires 365 * yoe <= doe - a + b - e < 365 * yoe + 365
    requires 0 <= yoe < 400 && 365 * yoe <= doe
    requires 4 * r4 <= yoe + 1 < 4 * r4 + 4
    requires 100 * r100 <= yoe + 1 < 100 * r100 + 100
    requires 400 * r400 <= yoe + 1 < 400 * r400 + 400
    ensures doe < 365 * (yoe + 1) + r4 - r100 + r400
  {
    assert 0 <= a <= 100 && 0 <= b <= 4 && 0 <= e <= 1;
    if e == 1 {
      assert doe == 146096 && a == 100 && b == 4;
    } else {
      assert doe < 365 * (yoe + 1) + a - b;
      assert 1460 * a < 365 * (yoe + 1) + 100;
      assert a <= r4;
      if b >= r100 - r400 {
        assert a - b <= r4 - r100 + r400;
      } else {
        assert r400 == 0;
        assert doe < 36524 * r100;
        assert 36524 * r100 <= 365 * (yoe + 1) + r4 - r100;
      }
    }
  }

  /** Gregorian leap years: multiples of 4, except multiples of 100 that
      are not multiples of 400. */
  predicate IsLeapYear(y: int)
  {
    y % 4 == 0 && (y % 100 != 0 || y % 400 == 0)
  }

  /** The length of a month, 1 = January, in a leap or a common year. */
  function MonthLength(month: int, leap: bool): nat
  {
    if month == 2 then (if leap then 29 else 28)
    else if month == 4 || month == 6 || month == 9 || month == 11 then 30
    else 31
  }

  /** The number of days of a month of a given year, as `getDate()` counts
      them. */
  function DaysInMonth(year: int, month: int): nat
  {
    MonthLength(month, IsLeapYear(year))
  }

  /** Year k of an era (k from 1 to 400) gains a leap day over year k - 1
      exactly when k is a leap year. */
  lemma LeapDayCount(k: int)
    requires 1 <= k <= 400
    ensures (k / 4 - k / 100 + k / 400) - ((k - 1) / 4 - (k - 1) / 100 + (k - 1) / 400)
            == if IsLeapYear(k) then 1 else 0
  {
    assert k / 4 - (k - 1) / 4 == if k % 4 == 0 then 1 else 0;
    assert k / 100 - (k - 1) / 100 == if k % 100 == 0 then 1 else 0;
    assert k / 400 - (k - 1) / 400 == if k == 400 then 1 else 0;
    if k % 100 == 0 {
      assert k % 4 == 0 by {
        assert k == 100 || k == 200 || k == 300 || k == 400;
      }
    }
  }

  /** Leap years repeat every 400 years. */
  lemma {:induction false} LeapShift(k: int, era: int)
    ensures IsLeapYear(k + era * 400) == IsLeapYear(k)
    decreases if era < 0 then -era else era
  {
    if era > 0 {
      LeapShift(k, era - 1);
      LeapStep(k + (era - 1) * 400);
    } else if era < 0 {
      LeapShift(k, era + 1);
      LeapStep(k + era * 400);
    }
  }

  lemma LeapStep(y: int)
    ensures IsLeapYear(y + 400) == IsLeapYear(y)
  {
    assert (y + 400) % 4 == y % 4;
    assert (y + 400) % 100 == y % 100;
    assert (y + 400) % 400 == y % 400;
  }

  /** Within a 400-year era, the year found from the day of the era starts
      on or before that day, and the day lies within that year, whose
      length is 366 days exactly when its end falls in a leap year
      (an era year runs from March to February). */
  lemma YearOfEraBounds(doe: int)
    requires 0 <= doe < 146097
    ensures var yoe := (doe - doe / 1460 + doe / 36524 - doe / 146096) / 365;
            0 <= yoe < 400
            && 0 <= doe - (365 * yoe + yoe / 4 - yoe / 100)
               < 365 + (if IsLeapYear(yoe + 1) then 1 else 0)
  {
    var yoe := (doe - doe / 1460 + doe / 36524 - doe / 146096) / 365;
    var a, b, e := doe / 1460, doe / 36524, doe / 146096;
    YearOfEraRange(doe, a, b, e, yoe);
    YearStartLower(doe, a, b, e, yoe, yoe / 4, yoe / 100);
    var k := yoe + 1;
    YearEndUpper(doe, a, b, e, yoe, k / 4, k / 100, k / 400);
    LeapDayCount(k);
    assert yoe / 400 == 0;
  }

  /** The month and day the day of an era year (counted from March 1)
      falls on: the day is at least 1 and at most the month's length. */
  lemma MonthOfYearDay(doy: int, leap: bool)
    requires 0 <= doy < 365 + (if leap then 1 else 0)
    ensures var mp := (5 * doy + 2) / 153;
            var d := doy - (153 * mp + 2) / 5 + 1;
            var m := if mp < 10 then mp + 3 else mp - 9;
            0 <= mp < 12 && 1 <= d <= MonthLength(m, leap)
  {
    var mp := (5 * doy + 2) / 153;
    assert 153 * mp <= 5 * doy + 2 < 153 * mp + 153;
    if mp == 0 {
    } else if mp == 1 {
    } else if mp == 2 {
    } else if mp == 3 {
    } else if mp == 4 {
    } else if mp == 5 {
    } else if mp == 6 {
    } else if mp == 7 {
    } else if mp == 8 {
    } else if mp == 9 {
    } else if mp == 10 {
    } else {
      assert mp == 11;
    }
  }

  /** The civil date of day `doy` (counted from March 1) of year `yoe` of
      era `era`: January and February belong to the next civil year. */
  function EraDate(era: int, yoe: int, doy: int): CivilDate
    requires 0 <= doy < 366
  {
    MonthOfYearDay(doy, true);
    var mp := (5 * doy + 2) / 153;
    var d := doy - (153 * mp + 2) / 5 + 1;
    var m := if mp < 10 then mp + 3 else mp - 9;
    var y := yoe + era * 400;
    CivilDate(if m <= 2 then y + 1 else y, m, d)
  }

  lemma EraDateValid(era: int, yoe: int, doy: int)
    requires 0 <= doy < 365 + (if IsLeapYear(yoe + 1) then 1 else 0)
    ensures var c := EraDate(era, yoe, doy);
            1 <= c.month <= 12 && 1 <= c.dayOfMonth <= DaysInMonth(c.year, c.month)
  {
    MonthOfYearDay(doy, IsLeapYear(yoe + 1));
    LeapShift(yoe + 1, era);
    assert yoe + era * 400 + 1 == yoe + 1 + era * 400;
  }

  lemma EraDateRoundTrip(era: int, yoe: int, doy: int)
    requires 0 <= yoe < 400 && 0 <= doy < 366
    ensures 1 <= EraDate(era, yoe, doy).month <= 12
    ensures DaysFromCivil(EraDate(era, yoe, doy))
            == era * 146097 + (365 * yoe + yoe / 4 - yoe / 100 + doy) - 719468
  {
    MonthOfYearDay(doy, true);
    var y := yoe + era * 400;
    assert y / 400 == era && y % 400 == yoe;
  }

  /** The civil date of a day number: a real date (month in 1..12, day of
      month from 1 to the length of that month in that year), and
      DaysFromCivil takes it back to the same day number. */
  function CivilFromDays(z: int): (c: CivilDate)
    ensures 1 <= c.month <= 12 && 1 <= c.dayOfMonth <= DaysInMonth(c.year, c.month)
    ensures c.dayOfMonth <= 31
    ensures DaysFromCivil(c) == z
  {
    var z' := z + 719468;
    var era := z' / 146097;
    var doe := z' % 146097;
    var yoe := (doe - doe / 1460 + doe / 36524 - doe / 146096) / 365;
    YearOfEraBounds(doe);
    var doy := doe - (365 * yoe + yoe / 4 - yoe / 100);
    EraDateValid(era, yoe, doy);
    EraDateRoundTrip(era, yoe, doy);
    EraDate(era, yoe, doy)
  }

  /** `toISODate`: `${getFullYear()}-${MM}-${DD}`. The year is printed with
      `String()`, so it is not padded. The duplicate inside the weekly agenda
      (src/App.js:1591-1596) is the same function. */
  function ToISODate(d: LocalDateTime): string
  {
    FormatCivil(CivilFromDays(d.day))
  }

  function FormatCivil(c: CivilDate): string
  {
    IntToString(c.year) + "-" + Pad2(c.month) + "-" + Pad2(c.dayOfMonth)
  }

  lemma ConcatSplitEqual(x1: string, s1: string, x2: string, s2: string)
    requires x1 + s1 == x2 + s2 && |s1| == |s2|
    ensures x1 == x2 && s1 == s2
  {
    assert x1 == (x1 + s1)[..|x1|];
    assert x2 == (x2 + s2)[..|x2|];
    assert s1 == (x1 + s1)[|x1|..];
    assert s2 == (x2 + s2)[|x2|..];
  }

  /** Formatting a civil date (month and day below 100) loses nothing. */
  lemma FormatCivilInjective(a: CivilDate, b: CivilDate)
    requires a.month < 100 && a.dayOfMonth < 100
    requires b.month < 100 && b.dayOfMonth < 100
    requires FormatCivil(a) == FormatCivil(b)
    ensures a == b
  {
    Pad2Digits(a.month);
    Pad2Digits(a.dayOfMonth);
    Pad2Digits(b.month);
    Pad2Digits(b.dayOfMonth);
    var ta := "-" + Pad2(a.month) + "-" + Pad2(a.dayOfMonth);
    var tb := "-" + Pad2(b.month) + "-" + Pad2(b.dayOfMonth);
    assert FormatCivil(a) == IntToString(a.year) + ta;
    assert FormatCivil(b) == IntToString(b.year) + tb;
    ConcatSplitEqual(IntToString(a.year), ta, IntToString(b.year), tb);
    IntToStringInjective(a.year, b.year);
    assert Pad2(a.month) == ta[1..3] && Pad2(b.month) == tb[1..3];
    assert Pad2(a.dayOfMonth) == ta[4..] && Pad2(b.dayOfMonth) == tb[4..];
    Pad2Value(a.month);
    Pad2Value(b.month);
    Pad2Value(a.dayOfMonth);
    Pad2Value(b.dayOfMonth);
  }

  lemma NatToStringInjective(a: nat, b: nat)
    requires NatToString(a) == NatToString(b)
    ensures a == b
  {
    NatToStringValue(a);
    NatToStringValue(b);
  }

  lemma IntToStringInjective(a: int, b: int)
    requires IntToString(a) == IntToString(b)
    ensures a == b
  {
    var sa, sb := IntToString(a), IntToString(b);
    assert a < 0 ==> sa[0] == '-';
    assert a >= 0 ==> IsDigit(sa[0]);
    assert b < 0 ==> sb[0] == '-';
    assert b >= 0 ==> IsDigit(sb[0]);
    if a < 0 && b < 0 {
      assert sa[1..] == NatToString(-a) && sb[1..] == NatToString(-b);
      NatToStringInjective(-a, -b);
    } else if a >= 0 && b >= 0 {
      NatToStringInjective(a, b);
    }
  }

  /** Two different days never share an ISO key, so the seven days of a
      window index seven different entries of the per-day appointment map. */
  lemma ToISODateInjective(a: LocalDateTime, b: LocalDateTime)
    requires ToISODate(a) == ToISODate(b)
    ensures a.day == b.day
  {
    FormatCivilInjective(CivilFromDays(a.day), CivilFromDays(b.day));
  }

  /** The seven days of a window have seven different ISO keys. */
  lemma WeekKeysDistinct(monday: LocalDateTime, i: int, j: int)
    requires 0 <= i < 7 && 0 <= j < 7 && i != j
    ensures ToISODate(GetWeekDays(monday)[i]) != ToISODate(GetWeekDays(monday)[j])
  {
    if ToISODate(GetWeekDays(monday)[i]) == ToISODate(GetWeekDays(monday)[j]) {
      ToISODateInjective(GetWeekDays(monday)[i], GetWeekDays(monday)[j]);
    }
  }

  /** s holds n decimal digits starting at index i. */
  predicate DigitsAt(s: string, i: nat, n: nat)
  {
    i + n <= |s| && AllDigits(s[i..i + n])
  }

  /** `new Date("YYYY-MM-DD...")`'s reading of the date part: four-digit
      year, month 01-12, day 01-31, otherwise an invalid date (None). */
  function ParseIsoDate(s: string): Option<int>
  {
    if |s| == 10 && DigitsAt(s, 0, 4) && s[4] == '-' && DigitsAt(s, 5, 2) && s[7] == '-'
       && DigitsAt(s, 8, 2)
    then
      var y, m, d := DigitsValue(s[..4]), DigitsValue(s[5..7]), DigitsValue(s[8..10]);
      if 1 <= m <= 12 && 1 <= d <= 31 then Some(DaysFromCivil(CivilDate(y, m, d))) else None
    else None
  }

  /** `new Date(iso)` on the local date-time forms "YYYY-MM-DDTHH:MM" and
      "YYYY-MM-DDTHH:MM:SS" (no zone suffix, so local time); "T24:00" and
      "T24:00:00" mean midnight at the end of the day. Anything else is an
      invalid date (None). */
  function ParseLocal(iso: string): Option<LocalDateTime>
  {
    if !(|iso| == 16 || (|iso| == 19 && iso[16] == ':' && DigitsAt(iso, 17, 2))) then None
    else if iso[10] != 'T' || !DigitsAt(iso, 11, 2) || iso[13] != ':' || !DigitsAt(iso, 14, 2) then None
    else
      match ParseIsoDate(iso[..10])
      case None => None
      case Some(day) =>
        var hh, mm := DigitsValue(iso[11..13]), DigitsValue(iso[14..16]);
        var ss := if |iso| == 19 then DigitsValue(iso[17..19]) else 0;
        if hh < 24 && mm < 60 && ss < 60 then
          Some(LocalDateTime(day, ((hh * 60 + mm) * 60 + ss) * 1000))
        else if hh == 24 && mm == 0 && ss == 0 then
          Some(LocalDateTime(day + 1, 0))
        else None
  }

  /** `isoToMinutes`: `getHours() * 60 + getMinutes()` of the parsed
      instant; the date is ignored. NaN (None) for an invalid date. */
  function IsoToMinutes(iso: string): Option<nat>
  {
    match ParseLocal(iso)
    case None => None
    case Some(t) => Some(t.ms / MsPerMinute)
  }

  /** The instant on a single time line, in milliseconds, as `getTime()`
      orders and subtracts local instants (no daylight-saving jumps). */
  function Timeline(t: LocalDateTime): int
  {
    t.day * MsPerDay + t.ms
  }

  lemma NatToStringLength4(y: nat)
    requires 1000 <= y <= 9999
    ensures |NatToString(y)| == 4
  {
    assert |NatToString(y / 10 / 10)| == 2;
  }

  /** A four-digit-year day prints as ten characters that ParseIsoDate
      reads back to the same day. */
  lemma IsoDateRoundTrip(d: LocalDateTime)
    requires 1000 <= CivilFromDays(d.day).year <= 9999
    ensures |ToISODate(d)| == 10 && ParseIsoDate(ToISODate(d)) == Some(d.day)
  {
    FormatCivilRoundTrip(CivilFromDays(d.day));
  }

  lemma FormatCivilRoundTrip(c: CivilDate)
    requires 1000 <= c.year <= 9999 && 1 <= c.month <= 12 && 1 <= c.dayOfMonth <= 31
    ensures |FormatCivil(c)| == 10 && ParseIsoDate(FormatCivil(c)) == Some(DaysFromCivil(c))
  {
    var s := FormatCivil(c);
    NatToStringLength4(c.year);
    Pad2Digits(c.month);
    Pad2Digits(c.dayOfMonth);
    Pad2Value(c.month);
    Pad2Value(c.dayOfMonth);
    NatToStringValue(c.year);
    assert s[..4] == NatToString(c.year) && s[0..4] == s[..4];
    assert s[5..7] == Pad2(c.month);
    assert s[8..10] == Pad2(c.dayOfMonth);
  }

  /** The strings the quick-booking modal sends,
      `${dayISO}T${minutesToHHMM(min)}:00`, are read by `new Date` as that
      very day at that minute, so isoToMinutes gives the minute back. */
  lemma DraftStringRoundTrip(d: LocalDateTime, minute: nat)
    requires 1000 <= CivilFromDays(d.day).year <= 9999
    requires minute < MinutesPerDay
    ensures ParseLocal(ToISODate(d) + "T" + MinutesToHHMM(minute) + ":00")
            == Some(LocalDateTime(d.day, minute * MsPerMinute))
    ensures IsoToMinutes(ToISODate(d) + "T" + MinutesToHHMM(minute) + ":00") == Some(minute)
  {
    IsoDateRoundTrip(d);
    FormatIsCanonical(minute);
    ParseLocalOfParts(ToISODate(d), d.day, MinutesToHHMM(minute));
  }

  lemma ParseLocalOfParts(date: string, day: int, hhmm: string)
    requires |date| == 10 && ParseIsoDate(date) == Some(day)
    requires IsHHMM(hhmm) && HHMMValue(hhmm) < MinutesPerDay
    ensures ParseLocal(date + "T" + hhmm + ":00")
            == Some(LocalDateTime(day, HHMMValue(hhmm) * MsPerMinute))
    ensures IsoToMinutes(date + "T" + hhmm + ":00") == Some(HHMMValue(hhmm))
  {
    var iso := date + "T" + hhmm + ":00";
    assert |iso| == 19;
    assert iso[..10] == date;
    assert iso[11..13] == hhmm[..2] && iso[14..16] == hhmm[3..];
    assert iso[17..19] == "00";
    assert iso[13] == ':' && iso[16] == ':' && iso[10] == 'T';
    TwoDigitsValue(hhmm[..2]);
    TwoDigitsValue(hhmm[3..]);
    TwoDigitsValue("00");
  }
}
