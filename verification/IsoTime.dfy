/** ISO-8601 instants: the printer, the reader, and why sorting the printed text
    sorts by time. */
module IsoTime {
  import opened Text
  import opened Decimal
  import opened Calendar

  // ---------- printing ----------

  function FormatIso8601(ms: nat): string {
    var secs := ms / 1000;
    DateOf(ms) + ['T'] + (ClockText(secs % 86_400, ms % 1000) + ['Z'])
  }

  /** The date of an instant. */
  function DateOf(ms: nat): string {
    FieldsPrintable(ms / 1000 / 86_400);
    DateText(CivilFromDays(ms / 1000 / 86_400))
  }

  function DateText(t: Date): string
    requires t.year >= 0 && t.month >= 0 && t.day >= 0
  {
    Pad(t.year, 4) + ['-'] + (Pad(t.month, 2) + ['-'] + Pad(t.day, 2))
  }

  /** No instant since 1970 has a field with a sign. */
  lemma FieldsPrintable(days: nat)
    ensures var t := CivilFromDays(days); t.year >= 0 && t.month >= 0 && t.day >= 0
  {
    hide CivilFromDays;
    YearBound(days);
    CivilFromDaysInverts(days);
  }

  function ClockText(timeOfDay: nat, millis: nat): string {
    Pad(timeOfDay / 3600, 2) + [':'] + (Pad(timeOfDay % 3600 / 60, 2) + [':']
    + (Pad(timeOfDay % 60, 2) + ['.'] + Pad(millis, 3)))
  }

  // ---------- reading ----------

  /** `split_once` on any of several characters. */
  function SplitOnceAny(s: string, set_: set<char>): (r: Option<(string, string)>)
    ensures r.Some? ==> |r.value.0| < |s| && r.value.0 + [s[|r.value.0|]] + r.value.1 == s
  {
    if s == [] then None
    else if s[0] in set_ then Some(([], s[1..]))
    else match SplitOnceAny(s[1..], set_)
      case None => None
      case Some((a, b)) => Some(([s[0]] + a, b))
  }

  /** Index of the last character in `set_`. */
  function LastIndexAny(s: string, set_: set<char>): (r: Option<nat>)
    ensures r.Some? ==> r.value < |s| && s[r.value] in set_
  {
    if s == [] then None
    else if s[|s| - 1] in set_ then Some(|s| - 1)
    else LastIndexAny(s[..|s| - 1], set_)
  }

  function SplitOffset(rest: string): Option<(string, int)> {
    if rest != [] && rest[|rest| - 1] in {'Z', 'z'} then Some((rest[..|rest| - 1], 0))
    else match LastIndexAny(rest, {'+', '-'})
      case None => Some((rest, 0))
      case Some(index) =>
        var sign := if rest[index] == '-' then -1 else 1;
        var offset := rest[index + 1..];
        match OffsetMinutes(offset)
        case None => None
        case Some(minutes) => Some((rest[..index], sign * minutes))
  }

  /** `HH:MM`, `HHMM` or `HH`.  The slices of the second form are by bytes in the
      source; only for text of four one-byte characters can they parse. */
  function OffsetMinutes(offset: string): Option<int> {
    match SplitOnce(offset, ':')
    case Some((h, m)) => HoursMinutes(ParseI64(h), ParseI64(m))
    case None =>
      if |offset| == 4 then HoursMinutes(ParseI64(offset[..2]), ParseI64(offset[2..]))
      else HoursMinutes(ParseI64(offset), Some(0))
  }

  function HoursMinutes(h: Option<int>, m: Option<int>): Option<int> {
    if h.Some? && m.Some? then Some(h.value * 60 + m.value) else None
  }

  /** The seconds field: whole seconds and milliseconds. */
  function ParseSeconds(field: string): Option<(int, int)> {
    match SplitOnce(field, '.')
    case None => (match ParseI64(field) case None => None case Some(s) => Some((s, 0)))
    case Some((whole, fraction)) =>
      match ParseI64(whole)
      case None => None
      case Some(s) => (match ParseI64(ThreeDigits(fraction)) case None => None case Some(ms) => Some((s, ms)))
  }

  /** The first three digits of a fraction of any length, padded on the right. */
  function ThreeDigits(fraction: string): string {
    var digits := Filter(IsDigit, fraction);
    var three := if |digits| > 3 then digits[..3] else digits;
    three + Zeros(3 - |three|)
  }

  function ParseClock(time: string): Option<(int, int, int, int)> {
    var parts := Split(time, ':');
    if |parts| < 2 then None
    else
      var hour, minute := ParseI64(parts[0]), ParseI64(parts[1]);
      var seconds := if |parts| >= 3 then ParseSeconds(parts[2]) else Some((0, 0));
      if hour.None? || minute.None? || seconds.None? then None
      else if 0 <= hour.value <= 23 && 0 <= minute.value <= 59 && 0 <= seconds.value.0 <= 60
      then Some((hour.value, minute.value, seconds.value.0, seconds.value.1))
      else None
  }

  function ParseDate(date: string): Option<Date> {
    var parts := Split(date, '-');
    if |parts| < 3 then None
    else
      var year, month, day := ParseI64(parts[0]), ParseI64(parts[1]), ParseI64(parts[2]);
      if year.None? || month.None? || day.None? then None
      else if 1 <= month.value <= 12 && 1 <= day.value <= 31
      then Some(Date(year.value, month.value, day.value))
      else None
  }

  function ParseIso8601(value: string): Option<nat> {
    match SplitOnceAny(Trim(value), {'T', 't', ' '})
    case None => None
    case Some((date, rest)) =>
      match ParseDate(date)
      case None => None
      case Some(d) =>
        match SplitOffset(rest)
        case None => None
        case Some((time, offsetMinutes)) =>
          match ParseClock(time)
          case None => None
          case Some((hour, minute, second, millis)) =>
            var days := DaysFromCivil(d.year, d.month, d.day);
            var seconds := days * 86_400 + hour * 3600 + minute * 60 + second - offsetMinutes * 60;
            var ms := seconds * 1000 + millis;
            if ms >= 0 then Some(ms) else None
  }

  // ---------- reading back what was printed ----------

  lemma {:induction false} SplitOnceAnyFirst(a: string, c: char, b: string, set_: set<char>)
    requires c in set_ && forall x :: x in a ==> x !in set_
    ensures SplitOnceAny(a + [c] + b, set_) == Some((a, b))
  {
    if a != [] {
      assert (a + [c] + b)[1..] == a[1..] + [c] + b;
      SplitOnceAnyFirst(a[1..], c, b, set_);
      assert [a[0]] + a[1..] == a;
    } else {
      assert ([] + [c] + b)[1..] == b;
    }
  }

  lemma DigitsOnly(s: string, c: char)
    requires AllDigits(s) && !IsDigit(c)
    ensures c !in s
  {
  }

  lemma ParseDateOfParts(y: string, m: string, d: string, year: int, month: int, day: int)
    requires '-' !in y && '-' !in m && '-' !in d && 1 <= month <= 12 && 1 <= day <= 31
    requires ParseI64(y) == Some(year) && ParseI64(m) == Some(month) && ParseI64(d) == Some(day)
    ensures ParseDate(y + ['-'] + (m + ['-'] + d)) == Some(Date(year, month, day))
  {
    hide ParseI64, Split;
    SplitFirst(y, '-', m + ['-'] + d);
    SplitFirst(m, '-', d);
    SplitNone(d, '-');
    assert Split(y + ['-'] + (m + ['-'] + d), '-') == [y, m, d];
  }

  lemma ParseDateOfFields(t: Date)
    requires 0 <= t.year <= I64_MAX && 1 <= t.month <= 12 && 1 <= t.day <= 31
    ensures ParseDate(DateText(t)) == Some(t)
  {
    hide Pad, ValueOf, Dec, ParseI64, ParseDate, AllDigits;
    var y, m, d := Pad(t.year, 4), Pad(t.month, 2), Pad(t.day, 2);
    ParsePad(t.year, 4);
    ParsePad(t.month, 2);
    ParsePad(t.day, 2);
    DigitsOnly(y, '-');
    DigitsOnly(m, '-');
    DigitsOnly(d, '-');
    ParseDateOfParts(y, m, d, t.year, t.month, t.day);
  }

  lemma ThreeDigitsOfThree(f: string)
    requires |f| == 3 && AllDigits(f)
    ensures ThreeDigits(f) == f
  {
    FilterAll(IsDigit, f);
    assert f + Zeros(0) == f;
  }

  lemma ParseSecondsOfParts(a: string, f: string, s: int, ms: int)
    requires AllDigits(a) && |f| == 3 && AllDigits(f) && ParseI64(a) == Some(s) && ParseI64(f) == Some(ms)
    ensures ParseSeconds(a + ['.'] + f) == Some((s, ms))
  {
    hide ParseI64, ThreeDigits, AllDigits;
    DigitsOnly(a, '.');
    SplitOnceFirst(a, '.', f);
    ThreeDigitsOfThree(f);
  }

  lemma ParseClockOfParts(h: string, m: string, last: string, hv: int, mv: int, sv: int, ms: int)
    requires AllDigits(h) && AllDigits(m) && ':' !in last
    requires ParseI64(h) == Some(hv) && ParseI64(m) == Some(mv) && ParseSeconds(last) == Some((sv, ms))
    requires 0 <= hv <= 23 && 0 <= mv <= 59 && 0 <= sv <= 60
    ensures ParseClock(h + [':'] + (m + [':'] + last)) == Some((hv, mv, sv, ms))
  {
    hide ParseI64, ParseSeconds, Split;
    SplitFirst(h, ':', m + [':'] + last);
    SplitFirst(m, ':', last);
    SplitNone(last, ':');
    assert Split(h + [':'] + (m + [':'] + last), ':') == [h, m, last];
  }

  lemma ThreeWide(ms: nat)
    requires ms < 1000
    ensures |Pad(ms, 3)| == 3
  {
    assert Pow10(3) == 10 * Pow10(2) && Pow10(2) == 10 * Pow10(1) && Pow10(1) == 10 * Pow10(0);
    DecWidth(ms, 3);
  }

  lemma ParseClockOfFields(tod: nat, ms: nat)
    requires tod < 86_400 && ms < 1000
    ensures ParseClock(ClockText(tod, ms)) == Some((tod / 3600, tod % 3600 / 60, tod % 60, ms))
  {
    var hv, mv, sv := tod / 3600, tod % 3600 / 60, tod % 60;
    var h, m, s, f := Pad(hv, 2), Pad(mv, 2), Pad(sv, 2), Pad(ms, 3);
    ParsePad(hv, 2);
    ParsePad(mv, 2);
    ParsePad(sv, 2);
    ParsePad(ms, 3);
    ThreeWide(ms);
    var last := s + ['.'] + f;
    ParseSecondsOfParts(s, f, sv, ms);
    DigitsOnly(s, ':');
    DigitsOnly(f, ':');
    ParseClockOfParts(h, m, last, hv, mv, sv, ms);
  }

  /** Years since 1970 stay far below the number of days. */
  lemma YearBound(n: nat)
    ensures 1970 <= CivilFromDays(n).year <= 1970 + n
  {
    CivilFromDaysInverts(n);
    var t := CivilFromDays(n);
    WithinYear(t);
    if t.year < 1970 { YearStartMonotone(t.year, 1970); }
    YearStartGrows(t.year);
  }

  lemma {:induction false} YearStartGrows(y: int)
    ensures y >= 1970 ==> YearStart(y) >= y - 1970
    decreases if y >= 1970 then y - 1970 else 0
  {
    if y > 1970 { YearStartGrows(y - 1); }
  }

  lemma {:induction false} TimeOfDayParts(tod: nat)
    requires tod < 86_400
    ensures tod / 3600 * 3600 + tod % 3600 / 60 * 60 + tod % 60 == tod
  {
    assert tod % 60 == tod % 3600 % 60 by { QuotientUnique(tod, 60, 60 * (tod / 3600) + tod % 3600 / 60, tod % 3600 % 60); }
  }

  lemma ParseOfParts(date: string, time: string, d: Date, hour: int, minute: int, second: int, millis: int)
    requires date != [] && !IsWhitespace(date[0]) && forall x :: x in date ==> x !in {'T', 't', ' '}
    requires ParseDate(date) == Some(d) && ParseClock(time) == Some((hour, minute, second, millis))
    ensures var ms := (DaysFromCivil(d.year, d.month, d.day) * 86_400 + hour * 3600 + minute * 60 + second) * 1000 + millis;
            ParseIso8601(date + ['T'] + (time + ['Z'])) == if ms >= 0 then Some(ms) else None
  {
    hide DaysFromCivil, ParseDate, ParseClock, Trim, SplitOnceAny, SplitOffset, LastIndexAny;
    var text := date + ['T'] + (time + ['Z']);
    assert text[0] == date[0] && text[|text| - 1] == 'Z';
    TrimFixed(text);
    SplitOnceAnyFirst(date, 'T', time + ['Z'], {'T', 't', ' '});
    SplitOffsetUtc(time);
  }

  lemma SplitOffsetUtc(time: string)
    ensures SplitOffset(time + ['Z']) == Some((time, 0))
  {
    assert (time + ['Z'])[..|time|] == time;
  }

  lemma SecondsAddUp(ms: nat)
    ensures var secs := ms / 1000;
            var tod := secs % 86_400;
            ms == (secs / 86_400 * 86_400 + tod / 3600 * 3600 + tod % 3600 / 60 * 60 + tod % 60) * 1000 + ms % 1000
  {
    TimeOfDayParts(ms / 1000 % 86_400);
  }

  /** For every instant whose milliseconds fit a signed 64-bit integer. */
  lemma ParseOfFormat(ms: nat)
    requires ms <= I64_MAX
    ensures ParseIso8601(FormatIso8601(ms)) == Some(ms)
  {
    hide CivilFromDays, DaysFromCivil, ParseIso8601, ClockText, DateText, ParseDate, ParseClock;
    var secs, millis := ms / 1000, ms % 1000;
    var days, tod := secs / 86_400, secs % 86_400;
    var t := CivilFromDays(days);
    YearBound(days);
    CivilFromDaysInverts(days);
    ParseDateOfFields(t);
    ParseClockOfFields(tod, millis);
    SecondsAddUp(ms);
    DateTextPlain(t);
    ParseOfParts(DateText(t), ClockText(tod, millis), t, tod / 3600, tod % 3600 / 60, tod % 60, millis);
  }

  lemma DateTextPlain(t: Date)
    requires t.year >= 0 && t.month >= 0 && t.day >= 0
    ensures DateText(t) != [] && IsDigit(DateText(t)[0])
    ensures forall x :: x in DateText(t) ==> IsDigit(x) || x == '-'
  {
  }

  // ---------- the order of the text is the order of time ----------

  /** Midnight UTC on 1 January of the year 10000, when a fifth digit appears. */
  const YEAR_10000 := 253_402_300_800_000

  lemma TwoFields(a: string, a': string, c: char, x: string, x': string)
    requires |a| == |a'|
    ensures LexLess(a + [c] + x, a' + [c] + x') <==> LexLess(a, a') || (a == a' && LexLess(x, x'))
    ensures a + [c] + x == a' + [c] + x' <==> a == a' && x == x'
  {
    var s, s' := a + [c] + x, a' + [c] + x';
    assert s == a + ([c] + x) && s' == a' + ([c] + x');
    LexAppend(a, a', [c] + x, [c] + x');
    LexAppend([c], [c], x, x');
    assert s[..|a|] == a && s'[..|a|] == a' && s[|a| + 1..] == x && s'[|a| + 1..] == x';
  }

  lemma Widths()
    ensures Pow10(2) == 100 && Pow10(3) == 1000 && Pow10(4) == 10_000
  {
    assert Pow10(4) == 10 * Pow10(3) && Pow10(3) == 10 * Pow10(2) && Pow10(2) == 10 * Pow10(1) && Pow10(1) == 10 * Pow10(0);
  }

  /** Years printed with as many digits compare as text the way they do as numbers. */
  lemma YearOrder(y: nat, y': nat)
    requires |Pad(y, 4)| == |Pad(y', 4)|
    ensures LexLess(Pad(y, 4), Pad(y', 4)) <==> y < y'
    ensures Pad(y, 4) == Pad(y', 4) <==> y == y'
  {
    hide LexLess, ValueOf;
    ValueOfPad(y, 4);
    ValueOfPad(y', 4);
    SameWidthOrder(Pad(y, 4), Pad(y', 4));
  }

  lemma DateTextOrder(s: Date, t: Date)
    requires ValidDate(s) && ValidDate(t) && 0 <= s.year && 0 <= t.year
    requires |Pad(s.year, 4)| == |Pad(t.year, 4)|
    ensures |DateText(s)| == |DateText(t)|
    ensures LexLess(DateText(s), DateText(t)) <==> Before(s, t)
    ensures DateText(s) == DateText(t) <==> s == t
  {
    hide Pad, LexLess, Pow10;
    Widths();
    YearOrder(s.year, t.year);
    PadOrder(s.month, t.month, 2);
    PadOrder(s.day, t.day, 2);
    TwoFields(Pad(s.month, 2), Pad(t.month, 2), '-', Pad(s.day, 2), Pad(t.day, 2));
    TwoFields(Pad(s.year, 4), Pad(t.year, 4), '-',
              Pad(s.month, 2) + ['-'] + Pad(s.day, 2), Pad(t.month, 2) + ['-'] + Pad(t.day, 2));
  }

  lemma ClockTextOrder(x: nat, mx: nat, y: nat, my: nat)
    requires x < 86_400 && y < 86_400 && mx < 1000 && my < 1000
    ensures |ClockText(x, mx)| == |ClockText(y, my)| == 12
    ensures LexLess(ClockText(x, mx), ClockText(y, my)) <==> x < y || (x == y && mx < my)
  {
    hide Pad, LexLess, Pow10;
    Widths();
    TimeOfDayParts(x);
    TimeOfDayParts(y);
    PadOrder(x / 3600, y / 3600, 2);
    PadOrder(x % 3600 / 60, y % 3600 / 60, 2);
    PadOrder(x % 60, y % 60, 2);
    PadOrder(mx, my, 3);
    ClockFieldsOrder(x, y);
    var sx, sy := Pad(x % 60, 2) + ['.'] + Pad(mx, 3), Pad(y % 60, 2) + ['.'] + Pad(my, 3);
    TwoFields(Pad(x % 60, 2), Pad(y % 60, 2), '.', Pad(mx, 3), Pad(my, 3));
    TwoFields(Pad(x % 3600 / 60, 2), Pad(y % 3600 / 60, 2), ':', sx, sy);
    TwoFields(Pad(x / 3600, 2), Pad(y / 3600, 2), ':',
              Pad(x % 3600 / 60, 2) + [':'] + sx, Pad(y % 3600 / 60, 2) + [':'] + sy);
  }

  lemma ClockFieldsOrder(x: nat, y: nat)
    ensures x < y <==>
            || x / 3600 < y / 3600
            || (x / 3600 == y / 3600 && x % 3600 / 60 < y % 3600 / 60)
            || (x / 3600 == y / 3600 && x % 3600 / 60 == y % 3600 / 60 && x % 60 < y % 60)
  {
    QuotientUnique(x, 60, 60 * (x / 3600) + x % 3600 / 60, x % 3600 % 60);
    QuotientUnique(y, 60, 60 * (y / 3600) + y % 3600 / 60, y % 3600 % 60);
  }

  lemma FourDigitYear(ms: nat)
    requires ms < YEAR_10000
    ensures 1970 <= CivilFromDays(ms / 1000 / 86_400).year < 10_000
  {
    hide CivilFromDays, DaysFromCivil, DayNumber, YearStart, YearLength, MonthLength;
    var days := ms / 1000 / 86_400;
    assert days < 2_932_897;
    CivilFromDaysInverts(days);
    YearBound(days);
    var t := CivilFromDays(days);
    WithinYear(t);
    YearStartOf10000();
    if t.year >= 10_000 {
      if t.year > 10_000 { YearStartMonotone(10_000, t.year); }
      assert false;
    }
  }

  lemma YearStartOf10000()
    ensures YearStart(10_000) == 2_932_897
    ensures forall y :: YearLength(y) >= 0
  {
    hide YearStart, LeapSum;
    YearStartClosed(10_000);
    LeapSumsTo9999();
  }

  lemma LeapSumsTo9999()
    ensures LeapSum(9999) - LeapSum(1969) == 2_932_897
  {
  }

  /** The year an instant is printed with. */
  function YearText(ms: nat): string {
    FieldsPrintable(ms / 1000 / 86_400);
    Pad(CivilFromDays(ms / 1000 / 86_400).year, 4)
  }

  lemma SameWidthFormatOrder(a: nat, b: nat)
    requires |YearText(a)| == |YearText(b)|
    ensures LexLess(FormatIso8601(a), FormatIso8601(b)) <==> a < b
  {
    hide CivilFromDays, DaysFromCivil, DateText, ClockText, LexLess, Before, Pad;
    var da, db := a / 1000 / 86_400, b / 1000 / 86_400;
    var s, t := CivilFromDays(da), CivilFromDays(db);
    CivilFromDaysInverts(da);
    CivilFromDaysInverts(db);
    YearBound(da);
    YearBound(db);
    DaysFromCivilMonotone(s, t);
    DateTextOrder(s, t);
    var ca, cb := ClockText(a / 1000 % 86_400, a % 1000), ClockText(b / 1000 % 86_400, b % 1000);
    ClockTextOrder(a / 1000 % 86_400, a % 1000, b / 1000 % 86_400, b % 1000);
    LexAppend(ca, cb, ['Z'], ['Z']);
    LexLessIrreflexive(['Z']);
    TwoFields(DateText(s), DateText(t), 'T', ca + ['Z'], cb + ['Z']);
    MixedRadix(a, b);
  }

  /** A dash comes before every digit, so numbers of different widths in front of one
      decide the order. */
  lemma {:induction false} DashDecides(x: string, y: string, u: string, v: string)
    requires AllDigits(x) && AllDigits(y) && |x| != |y|
    ensures LexLess(x + (['-'] + u), y + (['-'] + v)) <==> LexLess(x, y)
  {
    if x == "" {
      assert x + (['-'] + u) == ['-'] + u && y[0] in y;
    } else if y == "" {
      assert y + (['-'] + v) == ['-'] + v && x[0] in x;
    } else {
      assert (x + (['-'] + u))[1..] == x[1..] + (['-'] + u) && (y + (['-'] + v))[1..] == y[1..] + (['-'] + v);
      DashDecides(x[1..], y[1..], u, v);
    }
  }

  lemma YearTextFirst(ms: nat)
    ensures AllDigits(YearText(ms)) && exists rest :: FormatIso8601(ms) == YearText(ms) + (['-'] + rest)
  {
    hide CivilFromDays, ClockText, Pad;
    var t := CivilFromDays(ms / 1000 / 86_400);
    YearBound(ms / 1000 / 86_400);
    FieldsPrintable(ms / 1000 / 86_400);
    var rest := Pad(t.month, 2) + ['-'] + Pad(t.day, 2) + (['T'] + (ClockText(ms / 1000 % 86_400, ms % 1000) + ['Z']));
    assert FormatIso8601(ms) == YearText(ms) + (['-'] + rest);
  }

  /** Of two instants the earlier one's text comes first if and only if the two years
      have as many digits, or the earlier year's digits come first as text. */
  lemma FormatOrderIff(a: nat, b: nat)
    requires a < b
    ensures LexLess(FormatIso8601(a), FormatIso8601(b))
            <==> |YearText(a)| == |YearText(b)| || LexLess(YearText(a), YearText(b))
  {
    hide YearText, FormatIso8601, LexLess;
    if |YearText(a)| == |YearText(b)| {
      SameWidthFormatOrder(a, b);
    } else {
      YearTextFirst(a);
      YearTextFirst(b);
      var u :| FormatIso8601(a) == YearText(a) + (['-'] + u);
      var v :| FormatIso8601(b) == YearText(b) + (['-'] + v);
      DashDecides(YearText(a), YearText(b), u, v);
    }
  }

  /** Different instants have different texts. */
  lemma FormatsDiffer(a: nat, b: nat)
    requires a < b
    ensures LexLess(FormatIso8601(a), FormatIso8601(b)) || LexLess(FormatIso8601(b), FormatIso8601(a))
  {
    hide YearText, FormatIso8601, LexLess;
    if |YearText(a)| == |YearText(b)| {
      SameWidthFormatOrder(a, b);
    } else {
      YearTextFirst(a);
      YearTextFirst(b);
      var u :| FormatIso8601(a) == YearText(a) + (['-'] + u);
      var v :| FormatIso8601(b) == YearText(b) + (['-'] + v);
      DashDecides(YearText(a), YearText(b), u, v);
      DashDecides(YearText(b), YearText(a), v, u);
      LexLessTotal(YearText(a), YearText(b));
    }
  }

  lemma FourDigits(ms: nat)
    requires ms < YEAR_10000
    ensures |YearText(ms)| == 4
  {
    hide CivilFromDays, Pad;
    FourDigitYear(ms);
    Widths();
    PadOrder(CivilFromDays(ms / 1000 / 86_400).year, 0, 4);
  }

  /** Before the year 10000, the printed instants sort exactly as the instants do. */
  lemma FormatOrder(a: nat, b: nat)
    requires a < YEAR_10000 && b < YEAR_10000
    ensures LexLess(FormatIso8601(a), FormatIso8601(b)) <==> a < b
  {
    hide YearText, FormatIso8601, LexLess, YEAR_10000;
    FourDigits(a);
    FourDigits(b);
    SameWidthFormatOrder(a, b);
  }

  lemma MixedRadix(a: nat, b: nat)
    ensures a < b <==>
            || a / 1000 / 86_400 < b / 1000 / 86_400
            || (a / 1000 / 86_400 == b / 1000 / 86_400
                && (a / 1000 % 86_400 < b / 1000 % 86_400
                    || (a / 1000 % 86_400 == b / 1000 % 86_400 && a % 1000 < b % 1000)))
  {
  }

  /** The first instant with a fifth digit sorts before the last one without. */
  lemma FiveDigitYearsSortFirst()
    ensures LexLess(FormatIso8601(YEAR_10000), FormatIso8601(YEAR_10000 - 1))
  {
    hide LexLess, ClockText, CivilFromDays, DateText;
    Landmarks();
    FirstDigitLess(DateText(Date(10_000, 1, 1)), DateText(Date(9999, 12, 31)),
                   ['T'] + (ClockText(0, 0) + ['Z']), ['T'] + (ClockText(86_399, 999) + ['Z']));
    assert FormatIso8601(YEAR_10000) == DateText(Date(10_000, 1, 1)) + (['T'] + (ClockText(0, 0) + ['Z']));
    assert FormatIso8601(YEAR_10000 - 1) == DateText(Date(9999, 12, 31)) + (['T'] + (ClockText(86_399, 999) + ['Z']));
  }

  lemma Landmarks()
    ensures CivilFromDays(2_932_897) == Date(10_000, 1, 1) && CivilFromDays(2_932_896) == Date(9999, 12, 31)
    ensures DateText(Date(10_000, 1, 1)) != [] && DateText(Date(10_000, 1, 1))[0] == '1'
    ensures DateText(Date(9999, 12, 31)) != [] && DateText(Date(9999, 12, 31))[0] == '9'
  {
    LeadingDigit(10_000, 1);
    LeadingDigit(9999, 9);
    LandmarkDays();
    DateTextHead(Date(10_000, 1, 1));
    DateTextHead(Date(9999, 12, 31));
  }

  lemma LandmarkDays()
    ensures CivilFromDays(2_932_897) == Date(10_000, 1, 1) && CivilFromDays(2_932_896) == Date(9999, 12, 31)
  {
    hide CivilFromDays, DaysFromCivil, LeapSum;
    YearStartOf10000();
    assert YearStart(10_000) == YearStart(9999) + YearLength(9999);
    MonthStartClosed(9999, 12);
    DaysFromCivilCounts(10_000, 1, 1);
    DaysFromCivilCounts(9999, 12, 31);
    DaysFromCivilInverts(Date(10_000, 1, 1));
    DaysFromCivilInverts(Date(9999, 12, 31));
  }

  lemma LeadingDigit(n: nat, d: nat)
    requires (n == 10_000 && d == 1) || (n == 9999 && d == 9)
    ensures |Dec(n)| >= 4 && DigitValue(Dec(n)[0]) == d
  {
    assert Dec(n / 10 / 10 / 10) + [DigitChar(n / 10 / 10 % 10)] == Dec(n / 10 / 10);
    assert Dec(n / 10 / 10) + [DigitChar(n / 10 % 10)] == Dec(n / 10);
    assert Dec(n / 10) + [DigitChar(n % 10)] == Dec(n);
  }

  lemma DateTextHead(t: Date)
    requires t.year >= 0 && t.month >= 0 && t.day >= 0 && |Dec(t.year)| >= 4
    ensures DateText(t) != [] && DateText(t)[0] == Dec(t.year)[0]
  {
    hide Dec;
  }

  lemma FirstDigitLess(a: string, b: string, x: string, y: string)
    requires a != [] && b != [] && a[0] < b[0]
    ensures LexLess(a + x, b + y)
  {
  }
}