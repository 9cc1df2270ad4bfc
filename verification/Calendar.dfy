/** The proleptic Gregorian calendar in closed form, both directions, against a
    recursive count of year and month lengths.

    The source divides machine integers, whose `/` truncates toward zero.  `Quot`
    and `Rem` are those operators, spelled out by counting subtractions; the
    adjustments `z - 146_096` and `y - 399` exist only because of them. */
module Calendar {

  datatype Date = Date(year: int, month: int, day: int)

  /** How often `b` goes into `a`. */
  function Times(a: int, b: int): int
    requires a >= 0 && b > 0
    decreases a
  {
    if a < b then 0 else 1 + Times(a - b, b)
  }

  function Quot(a: int, b: int): int
    requires b > 0
  {
    if a >= 0 then Times(a, b) else -Times(-a, b)
  }

  function Rem(a: int, b: int): int
    requires b > 0
  {
    a - b * Quot(a, b)
  }

  // ---------- the closed forms ----------

  function CivilFromDays(days: int): Date {
    var z := days + 719_468;
    var era := Quot(if z >= 0 then z else z - 146_096, 146_097);
    var doe := z - era * 146_097;
    var yoe := Quot(doe - Quot(doe, 1460) + Quot(doe, 36_524) - Quot(doe, 146_096), 365);
    var y := yoe + era * 400;
    var doy := doe - (365 * yoe + Quot(yoe, 4) - Quot(yoe, 100));
    var mp := Quot(5 * doy + 2, 153);
    var d := doy - Quot(153 * mp + 2, 5) + 1;
    var m := if mp < 10 then mp + 3 else mp - 9;
    Date(if m <= 2 then y + 1 else y, m, d)
  }

  function DaysFromCivil(year: int, m: int, d: int): int {
    var y := if m <= 2 then year - 1 else year;
    var era := Quot(if y >= 0 then y else y - 399, 400);
    var yoe := y - era * 400;
    var mp := Rem(m + 9, 12);
    var doy := Quot(153 * mp + 2, 5) + d - 1;
    var doe := yoe * 365 + Quot(yoe, 4) - Quot(yoe, 100) + doy;
    era * 146_097 + doe - 719_468
  }

  /** `date_parts`: the date `offsetDays` away from an instant. */
  function DateParts(ms: nat, offsetDays: int): Date {
    CivilFromDays(Quot(ms / 1000, 86_400) + offsetDays)
  }

  // ---------- the calendar, counted ----------

  predicate Leap(y: int) {
    y % 4 == 0 && (y % 100 != 0 || y % 400 == 0)
  }

  function YearLength(y: int): int {
    if Leap(y) then 366 else 365
  }

  function MonthLength(y: int, m: int): int
    requires 1 <= m <= 12
  {
    if m == 2 then (if Leap(y) then 29 else 28)
    else if m in {4, 6, 9, 11} then 30
    else 31
  }

  predicate ValidDate(t: Date) {
    1 <= t.month <= 12 && 1 <= t.day <= MonthLength(t.year, t.month)
  }

  /** Days from 1 January 1970 to 1 January of year `y`, one year at a time. */
  function YearStart(y: int): int
    decreases if y >= 1970 then y - 1970 else 1970 - y
  {
    if y == 1970 then 0
    else if y > 1970 then YearStart(y - 1) + YearLength(y - 1)
    else YearStart(y + 1) - YearLength(y)
  }

  /** Days from the start of year `y` to the start of its month `m`. */
  function MonthStart(y: int, m: int): int
    requires 1 <= m <= 12
    decreases m
  {
    if m == 1 then 0 else MonthStart(y, m - 1) + MonthLength(y, m - 1)
  }

  function DayNumber(t: Date): int
    requires 1 <= t.month <= 12
  {
    YearStart(t.year) + MonthStart(t.year, t.month) + t.day - 1
  }

  predicate Before(s: Date, t: Date) {
    s.year < t.year || (s.year == t.year && (s.month < t.month || (s.month == t.month && s.day < t.day)))
  }

  // ---------- truncating division ----------

  lemma {:induction false} TimesIsDivision(a: int, b: int)
    requires a >= 0 && b > 0
    ensures Times(a, b) == a / b
    decreases a
  {
    if a < b {
      QuotientUnique(a, b, 0, a);
    } else {
      TimesIsDivision(a - b, b);
      QuotientUnique(a, b, (a - b) / b + 1, (a - b) % b);
    }
  }

  /** `Quot` rounds toward zero. */
  lemma QuotTruncates(a: int, b: int)
    requires b > 0
    ensures Quot(a, b) == if a >= 0 then a / b else -((-a) / b)
    ensures Rem(a, b) == a - b * Quot(a, b)
  {
    if a >= 0 { TimesIsDivision(a, b); } else { TimesIsDivision(-a, b); }
  }

  lemma Scaled(k: int, d: int)
    requires k > 0
    ensures d >= 1 ==> k * d >= k
    ensures d <= -1 ==> k * d <= -k
  {
  }

  lemma QuotientUnique(n: int, k: int, q: int, r: int)
    requires k > 0 && n == k * q + r && 0 <= r < k
    ensures n / k == q && n % k == r
  {
    assert k * (n / k - q) == r - n % k;
    Scaled(k, n / k - q);
  }

  // ---------- the closed form counts days ----------

  /** Days in the first `n` years counted from a year divisible by 400. */
  function LeapSum(n: int): int {
    365 * n + n / 4 - n / 100 + n / 400
  }

  lemma QuotientStep(n: int, k: int)
    requires k > 0
    ensures (n + 1) / k == n / k + (if (n + 1) % k == 0 then 1 else 0)
  {
    var q, r := n / k, n % k;
    if r + 1 == k {
      QuotientUnique(n + 1, k, q + 1, 0);
    } else {
      QuotientUnique(n + 1, k, q, r + 1);
    }
  }

  lemma LeapSumStep(n: int)
    ensures LeapSum(n + 1) - LeapSum(n) == YearLength(n + 1)
  {
    QuotientStep(n, 4);
    QuotientStep(n, 100);
    QuotientStep(n, 400);
    var r := (n + 1) % 400;
    var q := (n + 1) / 400;
    assert n + 1 == 400 * q + r;
    if r == 0 { QuotientUnique(n + 1, 100, 4 * q, 0); }
    var h := (n + 1) / 100;
    if (n + 1) % 100 == 0 { QuotientUnique(n + 1, 4, 25 * h, 0); }
  }

  lemma {:induction false} YearStartClosed(y: int)
    ensures YearStart(y) == LeapSum(y - 1) - LeapSum(1969)
    decreases if y >= 1970 then y - 1970 else 1970 - y
  {
    if y > 1970 {
      YearStartClosed(y - 1);
      LeapSumStep(y - 2);
    } else if y < 1970 {
      YearStartClosed(y + 1);
      LeapSumStep(y - 1);
    }
  }

  lemma EraSplit(y: int)
    ensures Quot(if y >= 0 then y else y - 399, 400) == y / 400
    ensures Quot(y % 400, 4) == y % 400 / 4 && Quot(y % 400, 100) == y % 400 / 100
    ensures LeapSum(y) == (y / 400) * 146_097 + (y % 400) * 365 + (y % 400) / 4 - (y % 400) / 100
  {
    var q := y / 400;
    var r := y % 400;
    QuotTruncates(if y >= 0 then y else y - 399, 400);
    QuotTruncates(r, 4);
    QuotTruncates(r, 100);
    EraQuotient(y);
    QuotientUnique(y, 4, 100 * q + r / 4, r % 4);
    QuotientUnique(y, 100, 4 * q + r / 100, r % 100);
  }

  /** Subtracting 399 first turns truncation into rounding down. */
  lemma EraQuotient(y: int)
    ensures (if y >= 0 then y / 400 else -((399 - y) / 400)) == y / 400
  {
  }

  lemma MonthStartClosed(y: int, m: int)
    requires 1 <= m <= 12
    ensures MonthStart(y, m) == [0, 31, 59, 90, 120, 151, 181, 212, 243, 273, 304, 334][m - 1]
                                + (if m > 2 && Leap(y) then 1 else 0)
  {
    if m > 1 { MonthStartClosed(y, m - 1); }
  }

  lemma MonthOffset(m: int)
    requires 1 <= m <= 12
    ensures Quot(153 * Rem(m + 9, 12) + 2, 5)
            == [306, 337, 0, 31, 61, 92, 122, 153, 184, 214, 245, 275][m - 1]
  {
    MarchMonth(m);
    QuotTruncates(153 * Rem(m + 9, 12) + 2, 5);
  }

  lemma MarchMonth(m: int)
    requires 1 <= m <= 12
    ensures Rem(m + 9, 12) == if m <= 2 then m + 9 else m - 3
  {
    QuotTruncates(m + 9, 12);
  }

  lemma DaysFromCivilSplit(year: int, m: int, d: int)
    requires 1 <= m <= 12
    ensures DaysFromCivil(year, m, d)
            == LeapSum(if m <= 2 then year - 1 else year) + Quot(153 * Rem(m + 9, 12) + 2, 5) + d - 1 - 719_468
  {
    var y := if m <= 2 then year - 1 else year;
    EraSplit(y);
    assert y - y / 400 * 400 == y % 400;
  }

  lemma LeapSumTo1969()
    ensures LeapSum(1969) == 719_162
  {
  }

  /** The closed form is the count, for every month of every year, and for day
      numbers outside the month as well (the source never bounds `d`). */
  lemma DaysFromCivilCounts(y: int, m: int, d: int)
    requires 1 <= m <= 12
    ensures DaysFromCivil(y, m, d) == DayNumber(Date(y, m, d))
  {
    hide DaysFromCivil, Rem, Quot, LeapSum, Leap, YearStart, MonthStart;
    LeapSumTo1969();
    DaysFromCivilSplit(y, m, d);
    MonthOffset(m);
    YearStartClosed(y);
    MonthStartClosed(y, m);
    LeapSumStep(y - 1);
  }

  // ---------- and the other way ----------

  /** The year-of-era formula finds the year whose days hold `doe`: `doe` is cut
      into centuries, four-year cycles, years and a day of the year. */
  lemma YearOfEra(doe: int) returns (yoe: int)
    requires 0 <= doe < 146_097
    ensures yoe == (doe - doe / 1460 + doe / 36_524 - doe / 146_096) / 365
    ensures 0 <= yoe < 400
    ensures 0 <= doe - (365 * yoe + yoe / 4 - yoe / 100) < YearLength(yoe + 1)
  {
    if doe == 146_096 {
      return 399;
    }
    var c, r := doe / 36_524, doe % 36_524;
    var q, u := r / 1461, r % 1461;
    var s := if u == 1460 then 3 else u / 365;
    yoe := 100 * c + 4 * q + s;
    YearOfEraFormula(doe, c, q, u, s);
    YearOfEraDays(c, q, u, s);
  }

  lemma YearOfEraFormula(doe: int, c: int, q: int, u: int, s: int)
    requires 0 <= c <= 3 && 0 <= q <= 24 && 0 <= u <= 1460 && doe == 36_524 * c + 1461 * q + u < 146_096
    requires doe / 36_524 == c
    requires s == if u == 1460 then 3 else u / 365
    ensures (doe - doe / 1460 + doe / 36_524 - doe / 146_096) / 365 == 100 * c + 4 * q + s
  {
    var carry := if 24 * c + q + u >= 1460 then 1 else 0;
    QuotientUnique(doe, 1460, 25 * c + q + carry, 24 * c + q + u - 1460 * carry);
    assert doe / 146_096 == 0;
    var n := doe - doe / 1460 + doe / 36_524 - doe / 146_096;
    assert n == 365 * (100 * c + 4 * q + s) + (u - carry - 365 * s);
    QuotientUnique(n, 365, 100 * c + 4 * q + s, u - carry - 365 * s);
  }

  lemma YearOfEraDays(c: int, q: int, u: int, s: int)
    requires 0 <= c <= 3 && 0 <= q <= 24 && 0 <= u <= 1460 && 36_524 * c + 1461 * q + u < 36_524 * (c + 1)
    requires s == if u == 1460 then 3 else u / 365
    ensures var yoe := 100 * c + 4 * q + s;
            0 <= 36_524 * c + 1461 * q + u - (365 * yoe + yoe / 4 - yoe / 100) < YearLength(yoe + 1)
  {
    var yoe := 100 * c + 4 * q + s;
    QuotientUnique(yoe, 4, 25 * c + q, s);
    QuotientUnique(yoe, 100, c, 4 * q + s);
    assert 36_524 * c + 1461 * q + u - (365 * yoe + yoe / 4 - yoe / 100) == u - 365 * s;
    if u == 1460 {
      QuotientUnique(yoe + 1, 4, 25 * c + q + 1, 0);
      assert q < 24;
      QuotientUnique(yoe + 1, 100, c, 4 * q + 4);
    }
  }

  /** The month formula inverts the month offsets, day by day of the March year. */
  lemma MonthOfDay(doy: int) returns (mp: int)
    requires 0 <= doy <= 365
    ensures mp == (5 * doy + 2) / 153 && 0 <= mp <= 11
    ensures (153 * mp + 2) / 5 <= doy
    ensures mp < 11 ==> doy < (153 * (mp + 1) + 2) / 5
    ensures mp == 11 ==> doy - 337 <= 28
  {
    mp := (5 * doy + 2) / 153;
  }

  /** Reading the closed form off the values of its divisions. */
  lemma CivilFromQuotients(n: int, era: int, doe: int, a: int, b: int, c: int, yoe: int, fours: int, hundreds: int,
                           doy: int, mp: int, before: int)
    requires Quot(if n + 719_468 >= 0 then n + 719_468 else n + 719_468 - 146_096, 146_097) == era
    requires doe == n + 719_468 - era * 146_097
    requires Quot(doe, 1460) == a && Quot(doe, 36_524) == b && Quot(doe, 146_096) == c
    requires Quot(doe - a + b - c, 365) == yoe && Quot(yoe, 4) == fours && Quot(yoe, 100) == hundreds
    requires doy == doe - (365 * yoe + fours - hundreds)
    requires Quot(5 * doy + 2, 153) == mp && Quot(153 * mp + 2, 5) == before
    ensures var m := if mp < 10 then mp + 3 else mp - 9;
            CivilFromDays(n) == Date(if m <= 2 then yoe + era * 400 + 1 else yoe + era * 400, m, doy - before + 1)
  {
    hide Quot;
  }

  lemma CivilFromParts(n: int, era: int, doe: int, yoe: int, doy: int, mp: int)
    requires Quot(if n + 719_468 >= 0 then n + 719_468 else n + 719_468 - 146_096, 146_097) == era
    requires doe == n + 719_468 - era * 146_097
    requires doe >= 0 && yoe >= 0 && doy >= 0
    requires yoe == (doe - doe / 1460 + doe / 36_524 - doe / 146_096) / 365
    requires doe - doe / 1460 + doe / 36_524 - doe / 146_096 >= 0
    requires doy == doe - (365 * yoe + yoe / 4 - yoe / 100)
    requires mp == (5 * doy + 2) / 153 && mp >= 0
    ensures var m := if mp < 10 then mp + 3 else mp - 9;
            CivilFromDays(n) == Date(if m <= 2 then yoe + era * 400 + 1 else yoe + era * 400, m, doy - (153 * mp + 2) / 5 + 1)
  {
    hide Quot, CivilFromDays;
    QuotTruncates(doe, 1460);
    QuotTruncates(doe, 36_524);
    QuotTruncates(doe, 146_096);
    var a, b, c := doe / 1460, doe / 36_524, doe / 146_096;
    QuotTruncates(doe - a + b - c, 365);
    QuotTruncates(yoe, 4);
    QuotTruncates(yoe, 100);
    QuotTruncates(5 * doy + 2, 153);
    QuotTruncates(153 * mp + 2, 5);
    CivilFromQuotients(n, era, doe, a, b, c, yoe, yoe / 4, yoe / 100, doy, mp, (153 * mp + 2) / 5);
  }

  lemma EraOfDay(z: int) returns (era: int, doe: int)
    ensures era == Quot(if z >= 0 then z else z - 146_096, 146_097)
    ensures doe == z - era * 146_097 && 0 <= doe < 146_097
  {
    era, doe := z / 146_097, z % 146_097;
    QuotTruncates(if z >= 0 then z else z - 146_096, 146_097);
  }

  lemma LeapSumOfEra(era: int, yoe: int)
    requires 0 <= yoe < 400
    ensures LeapSum(yoe + era * 400) == era * 146_097 + 365 * yoe + yoe / 4 - yoe / 100
  {
    QuotientUnique(yoe + era * 400, 400, era, yoe);
    EraSplit(yoe + era * 400);
  }

  /** The March year, day of that year and month number behind a day number. */
  lemma CivilFromDaysSplit(n: int) returns (y: int, doy: int, mp: int)
    ensures 0 <= doy < YearLength(y + 1)
    ensures n + 719_468 == LeapSum(y) + doy
    ensures mp == (5 * doy + 2) / 153 && 0 <= mp <= 11
    ensures var m := if mp < 10 then mp + 3 else mp - 9;
            CivilFromDays(n) == Date(if m <= 2 then y + 1 else y, m, doy - (153 * mp + 2) / 5 + 1)
  {
    hide Quot, CivilFromDays, LeapSum, Leap;
    var era, doe := EraOfDay(n + 719_468);
    var yoe := YearOfEra(doe);
    y, doy := yoe + era * 400, doe - (365 * yoe + yoe / 4 - yoe / 100);
    SameYearLength(y + 1, yoe + 1, era);
    mp := MonthOfDay(doy);
    LeapSumOfEra(era, yoe);
    YearNumeratorPositive(doe);
    CivilFromParts(n, era, doe, yoe, doy, mp);
  }

  lemma YearNumeratorPositive(doe: int)
    requires 0 <= doe < 146_097
    ensures doe - doe / 1460 + doe / 36_524 - doe / 146_096 >= 0
  {
  }

  lemma SameYearLength(y: int, yoe: int, era: int)
    requires y == yoe + 400 * era
    ensures Leap(y) == Leap(yoe) && YearLength(y) == YearLength(yoe)
  {
    QuotientUnique(y, 4, yoe / 4 + 100 * era, yoe % 4);
    QuotientUnique(y, 100, yoe / 100 + 4 * era, yoe % 100);
    QuotientUnique(y, 400, yoe / 400 + era, yoe % 400);
  }

  /** A month number and a day of the March year name a valid date. */
  lemma MonthDayValid(y: int, doy: int, mp: int)
    requires 0 <= doy < YearLength(y + 1) && mp == (5 * doy + 2) / 153
    ensures var m := if mp < 10 then mp + 3 else mp - 9;
            ValidDate(Date(if m <= 2 then y + 1 else y, m, doy - (153 * mp + 2) / 5 + 1))
  {
    var again := MonthOfDay(doy);
    assert mp == 0 || mp == 1 || mp == 2 || mp == 3 || mp == 4 || mp == 5 || mp == 6
           || mp == 7 || mp == 8 || mp == 9 || mp == 10 || mp == 11;
  }

  lemma CountBack(y: int, doy: int, mp: int)
    requires 0 <= mp <= 11
    ensures var m := if mp < 10 then mp + 3 else mp - 9;
            var year := if m <= 2 then y + 1 else y;
            var d := doy - (153 * mp + 2) / 5 + 1;
            DaysFromCivil(year, m, d) == DayNumber(Date(year, m, d)) == LeapSum(y) + doy - 719_468
  {
    var m := if mp < 10 then mp + 3 else mp - 9;
    MarchMonth(m);
    QuotTruncates(153 * mp + 2, 5);
    DaysFromCivilSplit(if m <= 2 then y + 1 else y, m, doy - (153 * mp + 2) / 5 + 1);
    DaysFromCivilCounts(if m <= 2 then y + 1 else y, m, doy - (153 * mp + 2) / 5 + 1);
  }

  /** Every day number has a valid date, and that date counts back to it. */
  lemma CivilFromDaysInverts(n: int)
    ensures ValidDate(CivilFromDays(n))
    ensures DaysFromCivil(CivilFromDays(n).year, CivilFromDays(n).month, CivilFromDays(n).day) == n
    ensures DayNumber(CivilFromDays(n)) == n
  {
    var y, doy, mp := CivilFromDaysSplit(n);
    MonthDayValid(y, doy, mp);
    CountBack(y, doy, mp);
  }

  // ---------- order ----------

  lemma {:induction false} YearStartMonotone(y: int, y': int)
    requires y < y'
    ensures YearStart(y) + YearLength(y) <= YearStart(y')
    decreases y' - y
  {
    YearStartClosed(y);
    YearStartClosed(y + 1);
    LeapSumStep(y - 1);
    if y + 1 < y' { YearStartMonotone(y + 1, y'); }
  }

  lemma {:induction false} MonthStartMonotone(y: int, m: int, m': int)
    requires 1 <= m < m' <= 12
    ensures MonthStart(y, m) + MonthLength(y, m) <= MonthStart(y, m')
    decreases m'
  {
    if m < m' - 1 { MonthStartMonotone(y, m, m' - 1); }
  }

  lemma WithinYear(t: Date)
    requires ValidDate(t)
    ensures YearStart(t.year) <= DayNumber(t) < YearStart(t.year) + YearLength(t.year)
  {
    MonthStartClosed(t.year, t.month);
    MonthStartClosed(t.year, 12);
    if t.month < 12 { MonthStartMonotone(t.year, t.month, 12); }
  }

  lemma EarlierCountsLess(s: Date, t: Date)
    requires ValidDate(s) && ValidDate(t) && Before(s, t)
    ensures DayNumber(s) < DayNumber(t)
  {
    WithinYear(s);
    WithinYear(t);
    if s.year < t.year { YearStartMonotone(s.year, t.year); }
    else if s.month < t.month { MonthStartMonotone(s.year, s.month, t.month); }
  }

  /** Later dates, and only they, have larger day numbers. */
  lemma DaysFromCivilMonotone(s: Date, t: Date)
    requires ValidDate(s) && ValidDate(t)
    ensures Before(s, t) <==> DaysFromCivil(s.year, s.month, s.day) < DaysFromCivil(t.year, t.month, t.day)
  {
    DaysFromCivilCounts(s.year, s.month, s.day);
    DaysFromCivilCounts(t.year, t.month, t.day);
    if Before(s, t) { EarlierCountsLess(s, t); }
    if Before(t, s) { EarlierCountsLess(t, s); }
  }

  /** The converse round trip, for every valid date of every era. */
  lemma DaysFromCivilInverts(t: Date)
    requires ValidDate(t)
    ensures CivilFromDays(DaysFromCivil(t.year, t.month, t.day)) == t
  {
    var n := DaysFromCivil(t.year, t.month, t.day);
    CivilFromDaysInverts(n);
    DaysFromCivilMonotone(t, CivilFromDays(n));
    DaysFromCivilMonotone(CivilFromDays(n), t);
  }

  /** A date is `offsetDays` after the day of the instant. */
  lemma DatePartsAdds(ms: nat, offsetDays: int)
    ensures ValidDate(DateParts(ms, offsetDays)) && ValidDate(DateParts(ms, 0))
    ensures DayNumber(DateParts(ms, offsetDays)) == DayNumber(DateParts(ms, 0)) + offsetDays
    ensures 86_400_000 * DayNumber(DateParts(ms, 0)) <= ms < 86_400_000 * (DayNumber(DateParts(ms, 0)) + 1)
  {
    hide CivilFromDays, DaysFromCivil, DayNumber, ValidDate, Quot;
    CivilFromDaysInverts(ms / 1000 / 86_400 + offsetDays);
    CivilFromDaysInverts(ms / 1000 / 86_400);
    QuotTruncates(ms / 1000, 86_400);
    WholeDays(ms);
  }

  lemma WholeDays(ms: nat)
    ensures var day := ms / 1000 / 86_400; 86_400_000 * day <= ms < 86_400_000 * (day + 1)
  {
    var secs := ms / 1000;
    assert secs == 86_400 * (secs / 86_400) + secs % 86_400;
    assert ms == 1000 * secs + ms % 1000;
  }
}
