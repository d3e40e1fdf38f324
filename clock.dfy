/** Times of day as "HH:MM" strings and minutes since midnight: the helpers
    `parseHHMM`, `minutesToHHMM`, the agenda's local `toMinutes` and
    `addMinutesToHHMM` of src/App.js. */
module Clock {
  import opened Wrappers
  import opened Text

  const MinutesPerDay: nat := 1440

  /** `parseHHMM`: Number() of the first two ":"-separated fields, combined
      as hour * 60 + minute. A missing minute field is `undefined`, whose
      Number() is NaN, so only "H:M" forms yield a value. */
  function ParseHHMM(hhmm: string): Option<nat>
  {
    var parts := Split(hhmm, ':');
    if |parts| < 2 then None
    else
      match (NumberOf(parts[0]), NumberOf(parts[1]))
      case (Some(h), Some(m)) => Some(h * 60 + m)
      case _ => None
  }

  /** The weekly agenda's local `toMinutes`: like ParseHHMM, but `m || 0`
      turns a missing or NaN minute field into 0. */
  function ToMinutes(hhmm: string): Option<nat>
  {
    var parts := Split(hhmm, ':');
    match NumberOf(parts[0])
    case None => None
    case Some(h) =>
      var m := if |parts| >= 2 && NumberOf(parts[1]).Some? then NumberOf(parts[1]).value else 0;
      Some(h * 60 + m)
  }

  /** `minutesToHHMM`: floor(min / 60) and min % 60, each padded to two
      digits. Hours of 100 and more print with three or more digits. */
  function MinutesToHHMM(min: nat): string
  {
    Pad2(min / 60) + ":" + Pad2(min % 60)
  }

  /** A canonical label: two digits, a colon, two digits, minutes below 60. */
  predicate IsHHMM(s: string)
  {
    |s| == 5 && IsDigit(s[0]) && IsDigit(s[1]) && s[2] == ':'
    && IsDigit(s[3]) && IsDigit(s[4]) && DigitOf(s[3]) < 6
  }

  /** The minutes since midnight a canonical label stands for. */
  function HHMMValue(s: string): nat
    requires IsHHMM(s)
  {
    (DigitOf(s[0]) * 10 + DigitOf(s[1])) * 60 + DigitOf(s[3]) * 10 + DigitOf(s[4])
  }

  lemma DigitsNoColon(s: string)
    requires AllDigits(s)
    ensures ':' !in s
  {
  }

  lemma SplitHourMinute(hh: string, mm: string)
    requires AllDigits(hh) && AllDigits(mm)
    ensures Split(hh + ":" + mm, ':') == [hh, mm]
  {
    assert hh + ":" + mm == hh + [':'] + mm;
    DigitsNoColon(hh);
    DigitsNoColon(mm);
    SplitAtFirst(hh, mm, ':');
    SplitNoSep(mm, ':');
  }

  /** Formatting then parsing is the identity, for both parsers, on every
      non-negative minute count (hours of three digits included). */
  lemma FormatParseRoundTrip(m: nat)
    ensures ParseHHMM(MinutesToHHMM(m)) == Some(m)
    ensures ToMinutes(MinutesToHHMM(m)) == Some(m)
  {
    var hh, mm := Pad2(m / 60), Pad2(m % 60);
    Pad2Value(m / 60);
    Pad2Value(m % 60);
    SplitHourMinute(hh, mm);
    assert m / 60 * 60 + m % 60 == m;
  }

  lemma TwoDigitsValue(s: string)
    requires |s| == 2 && AllDigits(s)
    ensures DigitsValue(s) == DigitOf(s[0]) * 10 + DigitOf(s[1])
  {
    var s1 := s[..1];
    assert s1[..0] == [] && s1[0] == s[0];
    assert DigitsValue(s1) == DigitOf(s[0]);
    assert s[..|s| - 1] == s1;
  }

  lemma DigitCharOf(c: char)
    requires IsDigit(c)
    ensures DigitChar(DigitOf(c)) == c
  {
  }

  lemma CanonicalParses(s: string)
    requires IsHHMM(s)
    ensures ParseHHMM(s) == Some(HHMMValue(s))
    ensures ToMinutes(s) == Some(HHMMValue(s))
  {
    var hh, mm := s[..2], s[3..];
    assert s == hh + ":" + mm;
    SplitHourMinute(hh, mm);
    TwoDigitsValue(hh);
    TwoDigitsValue(mm);
  }

  lemma HourMinuteOf(h: nat, mi: nat)
    requires mi < 60
    ensures (h * 60 + mi) / 60 == h && (h * 60 + mi) % 60 == mi
  {
  }

  lemma CanonicalFormats(s: string)
    requires IsHHMM(s)
    ensures MinutesToHHMM(HHMMValue(s)) == s
  {
    var h := DigitOf(s[0]) * 10 + DigitOf(s[1]);
    var mi := DigitOf(s[3]) * 10 + DigitOf(s[4]);
    HourMinuteOf(h, mi);
    assert h / 10 == DigitOf(s[0]) && h % 10 == DigitOf(s[1]);
    assert mi / 10 == DigitOf(s[3]) && mi % 10 == DigitOf(s[4]);
    Pad2Digits(h);
    Pad2Digits(mi);
    DigitCharOf(s[0]);
    DigitCharOf(s[1]);
    DigitCharOf(s[3]);
    DigitCharOf(s[4]);
    assert MinutesToHHMM(HHMMValue(s)) == [s[0], s[1]] + ":" + [s[3], s[4]];
  }

  /** On a canonical label both parsers agree, and formatting the value
      gives the label back: the other half of the round trip. */
  lemma CanonicalRoundTrip(s: string)
    requires IsHHMM(s)
    ensures ParseHHMM(s) == Some(HHMMValue(s))
    ensures ToMinutes(s) == Some(HHMMValue(s))
    ensures MinutesToHHMM(HHMMValue(s)) == s
  {
    CanonicalParses(s);
    CanonicalFormats(s);
  }

  /** Below 100 hours every formatted value is a canonical label. */
  lemma FormatIsCanonical(m: nat)
    requires m < 6000
    ensures IsHHMM(MinutesToHHMM(m)) && HHMMValue(MinutesToHHMM(m)) == m
  {
    Pad2Digits(m / 60);
    Pad2Digits(m % 60);
  }

  /** The local ToMinutes extends ParseHHMM: they agree wherever parseHHMM
      gives a number, and a bare hour ("9") reads as that hour sharp under
      ToMinutes but as NaN under ParseHHMM. */
  lemma ToMinutesExtendsParse(s: string)
    ensures ParseHHMM(s).Some? ==> ToMinutes(s) == ParseHHMM(s)
    ensures ':' !in s && AllDigits(s) ==>
              ToMinutes(s) == Some(DigitsValue(s) * 60) && ParseHHMM(s) == None
  {
    if ':' !in s {
      SplitNoSep(s, ':');
    }
  }

  /** For canonical labels, JavaScript's string `<` is the numeric order of
      the times they stand for. */
  lemma CanonicalLessIff(a: string, b: string)
    requires IsHHMM(a) && IsHHMM(b)
    ensures StrLess(a, b) <==> HHMMValue(a) < HHMMValue(b)
  {
    StrLessStep(a, b);
    assert a[1..][1..] == a[2..] && b[1..][1..] == b[2..];
    StrLessStep(a[1..], b[1..]);
    assert a[2..][1..] == a[3..] && b[2..][1..] == b[3..];
    StrLessStep(a[2..], b[2..]);
    assert a[3..][1..] == a[4..] && b[3..][1..] == b[4..];
    StrLessStep(a[3..], b[3..]);
    StrLessStep(a[4..], b[4..]);
    assert a[4..][1..] == [] && b[4..][1..] == [];
  }

  lemma StrLessStep(a: string, b: string)
    requires a != [] && b != []
    ensures StrLess(a, b) == if a[0] != b[0] then a[0] < b[0] else StrLess(a[1..], b[1..])
  {
  }

  lemma OneDigitNumber(d: char)
    requires IsDigit(d)
    ensures NumberOf([d]) == Some(DigitOf(d))
  {
    var s := [d];
    assert s[..|s| - 1] == [] && s[|s| - 1] == d;
    assert AllDigits(s) && DigitsValue(s) == DigitOf(d);
  }

  /** A label with a one-digit hour parses as that hour and minute. */
  lemma ParseUnpadded(d: char, mm: string)
    requires IsDigit(d) && |mm| == 2 && AllDigits(mm)
    ensures ParseHHMM([d] + ":" + mm) == Some(DigitOf(d) * 60 + DigitsValue(mm))
  {
    SplitHourMinute([d], mm);
    OneDigitNumber(d);
  }

  /** Without the leading zero the string order and the time order part: a
      label with a one-digit hour from 2 to 9 ("9:00") is earlier than any
      canonical label from 10:00 to 19:59 ("18:00"), yet string `<` puts it
      after. */
  lemma UnpaddedLabelsCompareWrongly(d: char, mm: string, t: string)
    requires '2' <= d <= '9' && |mm| == 2 && AllDigits(mm) && DigitOf(mm[0]) < 6
    requires IsHHMM(t) && t[0] == '1'
    ensures ParseHHMM([d] + ":" + mm) == Some(DigitOf(d) * 60 + DigitsValue(mm))
    ensures ParseHHMM(t) == Some(HHMMValue(t))
    ensures DigitOf(d) * 60 + DigitsValue(mm) < HHMMValue(t)
    ensures !StrLess([d] + ":" + mm, t)
  {
    ParseUnpadded(d, mm);
    TwoDigitsValue(mm);
    CanonicalParses(t);
    assert HHMMValue(t) >= 600;
    StrLessStep([d] + ":" + mm, t);
  }

  /** `addMinutesToHHMM`: an empty input comes back unchanged; otherwise the
      time goes through a `Date`, which carries whole days over, so the time
      of day wraps modulo 24 hours. Dafny's `%` is Euclidean, which is also
      how a `Date` wraps a negative shift. An hour field that is not a number
      makes an invalid `Date`, whose fields print as "NaN". */
  function AddMinutesToHHMM(hhmm: string, minutes: int): string
  {
    if hhmm == [] then hhmm
    else
      match ToMinutes(hhmm)
      case None => "NaN:NaN"
      case Some(t) => MinutesToHHMM((t + minutes) % MinutesPerDay)
  }

  /** The two edge cases: an empty input comes back unchanged, and a
      non-empty one without a readable hour gives "NaN:NaN". */
  lemma AddMinutesEdges(s: string, minutes: int)
    ensures AddMinutesToHHMM([], minutes) == []
    ensures s != [] && ToMinutes(s).None? ==> AddMinutesToHHMM(s, minutes) == "NaN:NaN"
  {
  }

  /** The sum is a canonical label of a time within the day, and reading it
      back gives (start + minutes) mod 24 h. */
  lemma AddMinutesWraps(hhmm: string, minutes: int)
    requires hhmm != [] && ToMinutes(hhmm).Some?
    ensures IsHHMM(AddMinutesToHHMM(hhmm, minutes))
    ensures HHMMValue(AddMinutesToHHMM(hhmm, minutes)) < MinutesPerDay
    ensures ToMinutes(AddMinutesToHHMM(hhmm, minutes))
            == Some((ToMinutes(hhmm).value + minutes) % MinutesPerDay)
  {
    var v := (ToMinutes(hhmm).value + minutes) % MinutesPerDay;
    FormatIsCanonical(v);
    FormatParseRoundTrip(v);
  }

  /** A canonical start plus n minutes lands on the canonical label whose
      value is (start + n) mod 24 h. */
  lemma AddMinutesLands(s: string, minutes: int, t: string)
    requires IsHHMM(s) && IsHHMM(t)
    requires (HHMMValue(s) + minutes) % MinutesPerDay == HHMMValue(t)
    ensures AddMinutesToHHMM(s, minutes) == t
  {
    CanonicalParses(s);
    CanonicalFormats(t);
  }

  lemma ShiftBack(v: int, minutes: int)
    requires 0 <= v < MinutesPerDay
    ensures ((v + minutes) % MinutesPerDay - minutes) % MinutesPerDay == v
  {
    var q := (v + minutes) / MinutesPerDay;
    assert (v + minutes) % MinutesPerDay - minutes == v + (-q) * MinutesPerDay;
    assert (v + (-q) * MinutesPerDay) % MinutesPerDay == v;
  }

  /** Adding n minutes and then -n gives back any canonical time of day. */
  lemma AddMinutesUndo(hhmm: string, minutes: int)
    requires IsHHMM(hhmm) && HHMMValue(hhmm) < MinutesPerDay
    ensures AddMinutesToHHMM(AddMinutesToHHMM(hhmm, minutes), -minutes) == hhmm
  {
    var v := HHMMValue(hhmm);
    var t := AddMinutesToHHMM(hhmm, minutes);
    CanonicalParses(hhmm);
    AddMinutesWraps(hhmm, minutes);
    ShiftBack(v, minutes);
    AddMinutesLands(t, -minutes, hhmm);
  }

  /** The case the booking form meets: a start of 23:00 plus an hour is
      00:00, while 09:00 plus an hour is 10:00. */
  lemma AddHourExamples(late: string, midnight: string, nine: string, ten: string)
    requires late == "23:00" && midnight == "00:00" && nine == "09:00" && ten == "10:00"
    ensures AddMinutesToHHMM(late, 60) == midnight
    ensures AddMinutesToHHMM(nine, 60) == ten
  {
    AddMinutesLands(late, 60, midnight);
    AddMinutesLands(nine, 60, ten);
  }
}
