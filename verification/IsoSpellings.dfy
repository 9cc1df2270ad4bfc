/** The other spellings of an instant that the reader takes: zones, separators, and
    seconds left out or more precise (section 5.6 of RFC 3339). */
module IsoSpellings {
  import opened Text
  import opened Characters
  import opened Decimal
  import opened Calendar
  import opened IsoTime

  // ---------- zones ----------

  ghost predicate Number(s: string, v: nat) {
    s != "" && AllDigits(s) && v == ValueOf(s) && v <= I64_MAX
  }

  /** A sign with hours and minutes, `+02:30` or `+0230`, or with hours alone. */
  ghost predicate Offset(zone: string, sign: char, hh: string, h: nat, mm: string, m: nat) {
    && sign in {'+', '-'} && Number(hh, h)
    && (|| (zone == [sign] + (hh + [':'] + mm) && Number(mm, m))
        || (zone == [sign] + (hh + mm) && Number(mm, m) && |hh| == |mm| == 2)
        || (zone == [sign] + hh && |hh| != 4 && m == 0))
  }

  /** A zone and its minutes east of UTC: `Z` or none at all, or an offset. */
  ghost predicate Zone(zone: string, minutes: int) {
    || (zone in {"Z", "z", ""} && minutes == 0)
    || exists sign, hh, h: nat, mm, m: nat :: Offset(zone, sign, hh, h, mm, m) && minutes == (if sign == '-' then -(60 * h + m) else 60 * h + m)
  }

  lemma NumberReads(s: string, v: nat)
    requires Number(s, v)
    ensures ParseI64(s) == Some(v)
  {
    assert IsDigit(s[0]);
  }

  lemma LastIndexStep(s: string, c: char, set_: set<char>)
    ensures LastIndexAny(s + [c], set_) == if c in set_ then Some(|s|) else LastIndexAny(s, set_)
  {
    assert (s + [c])[..|s|] == s;
  }

  lemma {:induction false} SignAt(time: string, sign: char, offset: string)
    requires sign in {'+', '-'} && '+' !in offset && '-' !in offset
    ensures LastIndexAny(time + [sign] + offset, {'+', '-'}) == Some(|time|)
    decreases |offset|
  {
    hide LastIndexAny;
    if offset == [] {
      LastIndexStep(time, sign, {'+', '-'});
      assert time + [sign] + offset == time + [sign];
    } else {
      var front, last := offset[..|offset| - 1], offset[|offset| - 1];
      assert time + [sign] + offset == (time + [sign] + front) + [last];
      LastIndexStep(time + [sign] + front, last, {'+', '-'});
      SignAt(time, sign, front);
    }
  }

  lemma {:induction false} NoSign(time: string)
    requires '+' !in time && '-' !in time
    ensures LastIndexAny(time, {'+', '-'}) == None
  {
    if time != [] {
      assert time[|time| - 1] in time;
      NoSign(time[..|time| - 1]);
    }
  }

  /** Letters and signs that a clock does not have. */
  ghost predicate ClockLike(time: string) {
    time != "" && forall c :: c in time ==> IsDigit(c) || c == ':' || c == '.'
  }

  lemma OffsetReads(time: string, sign: char, offset: string, minutes: int)
    requires sign in {'+', '-'} && offset != "" && IsDigit(offset[|offset| - 1])
    requires '+' !in offset && '-' !in offset && OffsetMinutes(offset) == Some(minutes)
    ensures SplitOffset(time + ([sign] + offset)) == Some((time, if sign == '-' then -minutes else minutes))
  {
    hide LastIndexAny, OffsetMinutes;
    var rest := time + ([sign] + offset);
    assert rest == time + [sign] + offset;
    SignAt(time, sign, offset);
    assert rest[|rest| - 1] == offset[|offset| - 1];
    assert rest[|time| + 1..] == offset && rest[..|time|] == time && rest[|time|] == sign;
  }

  lemma DigitsPlain(s: string)
    requires AllDigits(s)
    ensures '+' !in s && '-' !in s && ':' !in s
  {
  }

  lemma ColonOffset(hh: string, h: nat, mm: string, m: nat)
    requires Number(hh, h) && Number(mm, m)
    ensures OffsetMinutes(hh + [':'] + mm) == Some(60 * h + m)
  {
    hide ParseI64, SplitOnce, ValueOf;
    DigitsPlain(hh);
    SplitOnceFirst(hh, ':', mm);
    NumberReads(hh, h);
    NumberReads(mm, m);
  }

  lemma PlainOffset(hh: string, h: nat, mm: string, m: nat)
    requires Number(hh, h)
    ensures |hh| == |mm| == 2 && Number(mm, m) ==> OffsetMinutes(hh + mm) == Some(60 * h + m)
    ensures |hh| != 4 ==> OffsetMinutes(hh) == Some(60 * h)
  {
    hide ParseI64, SplitOnce, ValueOf;
    NumberReads(hh, h);
    DigitsPlain(hh);
    if |hh| == |mm| == 2 && Number(mm, m) {
      NumberReads(mm, m);
      DigitsPlain(mm);
      assert (hh + mm)[..2] == hh && (hh + mm)[2..] == mm;
    }
  }

  /** A zone is split off a clock and read. */
  lemma ZoneReads(time: string, zone: string, minutes: int)
    requires ClockLike(time) && Zone(zone, minutes)
    ensures SplitOffset(time + zone) == Some((time, minutes))
  {
    hide LastIndexAny, OffsetMinutes, ValueOf, SplitOffset;
    if zone in {"Z", "z", ""} && minutes == 0 {
      NoZone(time, zone);
    } else {
      var sign, hh, h: nat, mm, m: nat :|
        Offset(zone, sign, hh, h, mm, m) && minutes == (if sign == '-' then -(60 * h + m) else 60 * h + m);
      DigitsPlain(hh);
      PlainOffset(hh, h, mm, m);
      if zone == [sign] + (hh + [':'] + mm) && Number(mm, m) {
        DigitsPlain(mm);
        ColonOffset(hh, h, mm, m);
        OffsetReads(time, sign, hh + [':'] + mm, 60 * h + m);
      } else if zone == [sign] + (hh + mm) && Number(mm, m) && |hh| == |mm| == 2 {
        DigitsPlain(mm);
        OffsetReads(time, sign, hh + mm, 60 * h + m);
      } else {
        OffsetReads(time, sign, hh, 60 * h);
      }
    }
  }

  lemma NoZone(time: string, zone: string)
    requires ClockLike(time) && zone in {"Z", "z", ""}
    ensures SplitOffset(time + zone) == Some((time, 0))
  {
    hide LastIndexAny;
    NoSign(time);
    assert time[|time| - 1] in time;
    if zone == "" {
      assert time + zone == time;
    } else {
      assert (time + zone)[..|time|] == time && (time + zone)[|time|] == zone[0];
    }
  }

  // ---------- a whole text ----------

  /** The instant a date and a clock name at a number of minutes east of UTC. */
  function Instant(d: Date, hour: int, minute: int, second: int, millis: int, minutes: int): int {
    (DaysFromCivil(d.year, d.month, d.day) * 86_400 + hour * 3600 + minute * 60 + second - minutes * 60) * 1000 + millis
  }

  /** A date, a clock and a zone make the instant they name, if the first two read. */
  lemma PartsRead(date: string, sep: char, time: string, zone: string, minutes: int)
    requires date != [] && IsDigit(date[0]) && (forall x :: x in date ==> IsDigit(x) || x == '-') && sep in {'T', 't', ' '}
    requires ClockLike(time) && Zone(zone, minutes)
    ensures ParseIso8601(date + [sep] + (time + zone))
            == if ParseDate(date).None? || ParseClock(time).None? then None
               else var (hour, minute, second, millis) := ParseClock(time).value;
                    var ms := Instant(ParseDate(date).value, hour, minute, second, millis, minutes);
                    if ms >= 0 then Some(ms) else None
  {
    hide DaysFromCivil, ParseDate, ParseClock, Trim, SplitOnceAny, SplitOffset, Zone;
    var text := date + [sep] + (time + zone);
    assert text[0] == date[0];
    LastOfZone(time, zone, minutes);
    assert text[|text| - 1] == (time + zone)[|time + zone| - 1];
    TrimFixed(text);
    SplitOnceAnyFirst(date, sep, time + zone, {'T', 't', ' '});
    ZoneReads(time, zone, minutes);
  }

  lemma LastOfZone(time: string, zone: string, minutes: int)
    requires ClockLike(time) && Zone(zone, minutes)
    ensures !IsWhitespace((time + zone)[|time + zone| - 1])
  {
    var last := (time + zone)[|time + zone| - 1];
    if zone == "" {
      assert last == time[|time| - 1] && last in time;
    } else {
      assert last == zone[|zone| - 1];
    }
  }

  lemma ClockTextPlain(tod: nat, ms: nat)
    ensures ClockLike(ClockText(tod, ms))
  {
    hide Pad;
    Digits(Pad(tod / 3600, 2));
    Digits(Pad(tod % 3600 / 60, 2));
    Digits(Pad(tod % 60, 2));
    Digits(Pad(ms, 3));
  }

  lemma Digits(s: string)
    requires AllDigits(s)
    ensures forall c :: c in s ==> IsDigit(c)
  {
  }

  /** A printed instant with another separator and another zone reads as the instant
      that many minutes earlier, and as none before 1970. */
  lemma PrintedReads(ms: nat, sep: char, zone: string, minutes: int)
    requires ms <= I64_MAX && sep in {'T', 't', ' '} && Zone(zone, minutes)
    ensures var date, time := DateOf(ms), ClockText(ms / 1000 % 86_400, ms % 1000);
            && FormatIso8601(ms) == date + ['T'] + (time + ['Z'])
            && ParseIso8601(date + [sep] + (time + zone))
               == if ms - 60_000 * minutes >= 0 then Some(ms - 60_000 * minutes) else None
  {
    hide CivilFromDays, DaysFromCivil, ParseIso8601, ClockText, DateText, ParseDate, ParseClock, Zone;
    var secs, millis := ms / 1000, ms % 1000;
    var days, tod := secs / 86_400, secs % 86_400;
    var t := CivilFromDays(days);
    YearBound(days);
    CivilFromDaysInverts(days);
    ParseDateOfFields(t);
    ParseClockOfFields(tod, millis);
    SecondsAddUp(ms);
    DateTextPlain(t);
    ClockTextPlain(tod, millis);
    PartsRead(DateText(t), sep, ClockText(tod, millis), zone, minutes);
  }

  /** Blanks around a text do not count. */
  lemma BlanksIgnored(front: string, text: string, back: string)
    requires forall i :: 0 <= i < |front| ==> IsWhitespace(front[i])
    requires forall i :: 0 <= i < |back| ==> IsWhitespace(back[i])
    requires Trimmed(text)
    ensures ParseIso8601(front + text + back) == ParseIso8601(text)
  {
    hide Trim, ParseDate, SplitOffset, SplitOnceAny, ParseClock, DaysFromCivil, IsWhitespace;
    TrimIs(front, text, back);
    TrimFixed(text);
  }

  // ---------- seconds ----------

  /** The first three digits after the point, as milliseconds. */
  function Millis(fraction: string): nat
    requires AllDigits(fraction)
  {
    if |fraction| == 0 then 0
    else if |fraction| == 1 then 100 * ValueOf(fraction)
    else if |fraction| == 2 then 10 * ValueOf(fraction)
    else ValueOf(fraction[..3])
  }

  lemma OneZero(s: string)
    requires AllDigits(s)
    ensures AllDigits(s + "0") && ValueOf(s + "0") == 10 * ValueOf(s)
  {
    assert (s + "0")[..|s|] == s;
  }

  lemma SmallNumber(s: string)
    requires AllDigits(s) && |s| == 3
    ensures ParseI64(s) == Some(ValueOf(s)) && ValueOf(s) < 1000
  {
    assert IsDigit(s[0]);
    assert s[..2][..1] == s[..1] && s[..1][..0] == "";
    assert ValueOf(s) == 10 * ValueOf(s[..2]) + DigitValue(s[2]);
    assert ValueOf(s[..2]) == 10 * ValueOf(s[..1]) + DigitValue(s[1]);
    assert ValueOf(s[..1]) == DigitValue(s[0]);
  }

  /** A fraction of any length is cut or filled up to milliseconds. */
  lemma FractionReads(whole: string, s: nat, fraction: string)
    requires Number(whole, s) && AllDigits(fraction)
    ensures ParseSeconds(whole) == Some((s, 0))
    ensures ParseSeconds(whole + ['.'] + fraction) == Some((s, Millis(fraction)))
  {
    hide ParseI64, Zeros, SplitOnce, ValueOf;
    DigitsOnly(whole, '.');
    SplitOnceFirst(whole, '.', fraction);
    NumberReads(whole, s);
    FilterAll(IsDigit, fraction);
    ThreeRead(fraction);
  }

  lemma ThreeRead(fraction: string)
    requires AllDigits(fraction)
    ensures ParseI64(ThreeDigits(fraction)) == Some(Millis(fraction))
  {
    hide ParseI64, ValueOf;
    FilterAll(IsDigit, fraction);
    FilledUp(fraction);
    var three := ThreeDigits(fraction);
    SmallNumber(three);
  }

  lemma FilledUp(fraction: string)
    requires AllDigits(fraction) && Filter(IsDigit, fraction) == fraction
    ensures var three := ThreeDigits(fraction);
            |three| == 3 && AllDigits(three) && ValueOf(three) == Millis(fraction)
  {
    hide ValueOf, AllDigits, ThreeDigits;
    ThreeIs(fraction);
    NoDigits();
    OneZero(fraction);
    OneZero(fraction + "0");
    OneZero("0");
    OneZero("0" + "0");
    if |fraction| >= 3 { FirstThree(fraction); }
  }

  lemma FirstThree(fraction: string)
    requires AllDigits(fraction) && |fraction| >= 3
    ensures AllDigits(fraction[..3])
  {
  }

  lemma ThreeIs(fraction: string)
    requires Filter(IsDigit, fraction) == fraction
    ensures ThreeDigits(fraction)
            == if |fraction| == 0 then "0" + "0" + "0"
               else if |fraction| == 1 then fraction + "0" + "0"
               else if |fraction| == 2 then fraction + "0"
               else fraction[..3]
  {
    hide Filter;
    if |fraction| == 3 { assert fraction[..3] + Zeros(0) == fraction; }
  }

  lemma NoDigits()
    ensures AllDigits("0") && ValueOf("0") == 0 && ValueOf("") == 0
  {
    assert "0"[..0] == "";
  }

  /** A clock of hours and minutes, with seconds or without, reads within its bounds. */
  lemma ClockReads(hh: string, h: nat, mm: string, m: nat, ss: string, s: nat, millis: int)
    requires Number(hh, h) && Number(mm, m) && ':' !in ss && ParseSeconds(ss) == Some((s, millis))
    ensures ParseClock(hh + [':'] + mm) == if h <= 23 && m <= 59 then Some((h, m, 0, 0)) else None
    ensures ParseClock(hh + [':'] + (mm + [':'] + ss))
            == if h <= 23 && m <= 59 && s <= 60 then Some((h, m, s, millis)) else None
  {
    hide ParseI64, Split, ValueOf, ParseSeconds;
    NumberReads(hh, h);
    NumberReads(mm, m);
    DigitsPlain(hh);
    DigitsPlain(mm);
    SplitFirst(hh, ':', mm);
    SplitNone(mm, ':');
    SplitFirst(hh, ':', mm + [':'] + ss);
    SplitFirst(mm, ':', ss);
    SplitNone(ss, ':');
    assert [hh] + [mm] == [hh, mm] && [hh] + ([mm] + [ss]) == [hh, mm, ss];
  }

  /** A date reads if its month is one of twelve and its day one of 31. */
  lemma DateReads(yy: string, y: nat, mm: string, m: nat, dd: string, d: nat)
    requires Number(yy, y) && Number(mm, m) && Number(dd, d)
    ensures ParseDate(yy + ['-'] + (mm + ['-'] + dd)) == if 1 <= m <= 12 && 1 <= d <= 31 then Some(Date(y, m, d)) else None
  {
    hide ParseI64, Split, ValueOf;
    NumberReads(yy, y);
    NumberReads(mm, m);
    NumberReads(dd, d);
    DigitsPlain(yy);
    DigitsPlain(mm);
    DigitsPlain(dd);
    SplitFirst(yy, '-', mm + ['-'] + dd);
    SplitFirst(mm, '-', dd);
    SplitNone(dd, '-');
    assert [yy] + ([mm] + [dd]) == [yy, mm, dd];
  }

  /** Every text of this form, from whatever program: read as the instant it names if its
      fields are in their bounds and it is not before 1970, and refused otherwise. */
  lemma TextReads(yy: string, y: nat, mm: string, m: nat, dd: string, d: nat, sep: char,
                  hh: string, h: nat, nn: string, n: nat, ss: string, s: nat, fraction: string, zone: string, minutes: int)
    requires Number(yy, y) && Number(mm, m) && Number(dd, d) && sep in {'T', 't', ' '}
    requires Number(hh, h) && Number(nn, n) && Number(ss, s) && AllDigits(fraction) && Zone(zone, minutes)
    ensures var date, clock := yy + ['-'] + (mm + ['-'] + dd), hh + [':'] + (nn + [':'] + (ss + ['.'] + fraction));
            var ok := 1 <= m <= 12 && 1 <= d <= 31 && h <= 23 && n <= 59 && s <= 60;
            var ms := Instant(Date(y, m, d), h, n, s, Millis(fraction), minutes);
            ParseIso8601(date + [sep] + (clock + zone)) == if ok && ms >= 0 then Some(ms) else None
  {
    hide ParseI64, ParseIso8601, ParseDate, ParseClock, ValueOf, Zone, Instant, Millis, ParseSeconds;
    var last := ss + ['.'] + fraction;
    var date, clock := yy + ['-'] + (mm + ['-'] + dd), hh + [':'] + (nn + [':'] + last);
    FractionReads(ss, s, fraction);
    PlainClock(hh, nn, ss, fraction);
    ClockReads(hh, h, nn, n, last, s, Millis(fraction));
    DateReads(yy, y, mm, m, dd, d);
    PlainDate(yy, mm, dd);
    PartsRead(date, sep, clock, zone, minutes);
  }

  lemma PlainDate(yy: string, mm: string, dd: string)
    requires yy != "" && AllDigits(yy) && AllDigits(mm) && AllDigits(dd)
    ensures var date := yy + ['-'] + (mm + ['-'] + dd);
            date != [] && IsDigit(date[0]) && forall x :: x in date ==> IsDigit(x) || x == '-'
  {
    Digits(yy);
    Digits(mm);
    Digits(dd);
    assert (yy + ['-'] + (mm + ['-'] + dd))[0] == yy[0];
  }

  lemma PlainClock(hh: string, nn: string, ss: string, fraction: string)
    requires AllDigits(hh) && AllDigits(nn) && AllDigits(ss) && AllDigits(fraction)
    ensures ClockLike(hh + [':'] + (nn + [':'] + (ss + ['.'] + fraction))) && ':' !in ss + ['.'] + fraction
  {
    Digits(hh);
    Digits(nn);
    Digits(ss);
    Digits(fraction);
  }
}
