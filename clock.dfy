/**
 * Time as the logger stores it: a `PrimitiveDateTime` taken in UTC, modelled
 * as a whole number of nanoseconds since the Unix epoch. Dafny's `/` and `%`
 * with a positive divisor round towards negative infinity, which is how the
 * `time` crate splits an instant before 1970 into a date and a time of day.
 */
module Clock {
  import opened Wrappers
  import opened Text

  const NanosPerMilli: int := 1_000_000
  const NanosPerSecond: int := 1_000_000_000
  const SecondsPerDay: int := 86_400
  const NanosPerDay: int := 86_400_000_000_000

  /** The `time` crate's range without `large-dates`: -9999-01-01 00:00:00 to 9999-12-31 23:59:59.999999999. */
  const MinUnixSeconds: int := -377_705_116_800
  const MaxUnixSeconds: int := 253_402_300_799
  const MinNanos: int := -377_705_116_800_000_000_000
  const MaxNanos: int := 253_402_300_799_999_999_999

  predicate Representable(t: int) {
    MinNanos <= t <= MaxNanos
  }

  /** Days since 1970-01-01 of the calendar day holding instant t. */
  function DayOf(t: int): int {
    t / NanosPerDay
  }

  /** Midnight (00:00:00 UTC) of a day: `date.with_time(Time::MIDNIGHT)`. */
  function StartOfDay(day: int): int {
    day * NanosPerDay
  }

  /** An instant lies in its own day: after that day's midnight, before the next one. */
  lemma DayOfBrackets(t: int)
    ensures StartOfDay(DayOf(t)) <= t < StartOfDay(DayOf(t)) + NanosPerDay
  {
  }

  /**
   * The closed window [midnight, midnight + 1 day - 1 ns] holds exactly the
   * instants of that day, in both directions.
   */
  lemma InWindowIffSameDay(day: int, t: int)
    ensures StartOfDay(day) <= t <= StartOfDay(day) + NanosPerDay - 1 <==> DayOf(t) == day
  {
    DayOfBrackets(t);
  }

  /** The second of the day, 0 for 00:00:00 up to 86399 for 23:59:59. */
  function SecondOfDay(t: int): (s: nat)
    ensures s < SecondsPerDay
  {
    (t / NanosPerSecond) % SecondsPerDay
  }

  /** A field padded to two digits (`padding:zero`); every field it renders is below 100. */
  function TwoDigits(n: nat): (s: string)
    ensures |s| == 2
  {
    [DigitChar(n / 10 % 10), DigitChar(n % 10)]
  }

  lemma TwoDigitsValue(n: nat)
    requires n < 100
    ensures AllDigits(TwoDigits(n)) && DigitsValue(TwoDigits(n)) == n
  {
    var s := TwoDigits(n);
    assert s[..1] == [s[0]] && s[..1][..0] == [];
    assert DigitsValue(s[..1]) == n / 10 % 10;
    assert DigitsValue(s) == (n / 10 % 10) * 10 + n % 10;
  }

  /** The `[hour]:[minute]:[second]` rendering of an instant's time of day. */
  function ClockText(t: int): (s: string)
    ensures |s| == 8
  {
    var sec := SecondOfDay(t);
    TwoDigits(sec / 3600) + ":" + TwoDigits(sec / 60 % 60) + ":" + TwoDigits(sec % 60)
  }

  /** Reading the three fields of a clock rendering back gives the second of the day. */
  lemma ClockTextReadsBack(t: int)
    ensures var s := ClockText(t);
      s[2] == ':' && s[5] == ':' && AllDigits(s[..2]) && AllDigits(s[3..5]) && AllDigits(s[6..])
      && var h, m, sec := DigitsValue(s[..2]), DigitsValue(s[3..5]), DigitsValue(s[6..]);
      h < 24 && m < 60 && sec < 60 && h * 3600 + m * 60 + sec == SecondOfDay(t)
  {
    var n := SecondOfDay(t);
    FieldsReadBack(n / 3600, n / 60 % 60, n % 60);
    SecondFields(n);
  }

  /** A second of the day splits into hours below 24, minutes and seconds below 60. */
  lemma SecondFields(n: int)
    requires 0 <= n < SecondsPerDay
    ensures n / 3600 < 24 && n / 60 % 60 < 60 && n % 60 < 60
    ensures (n / 3600) * 3600 + (n / 60 % 60) * 60 + n % 60 == n
  {
    var h, r := n / 3600, n % 3600;
    assert n == 3600 * h + r;
    assert n / 60 == 60 * h + r / 60;
    assert n / 60 % 60 == r / 60;
  }

  /** Three two-digit fields joined by ':' read back field by field. */
  lemma FieldsReadBack(a: nat, b: nat, c: nat)
    requires a < 100 && b < 100 && c < 100
    ensures var s := TwoDigits(a) + ":" + TwoDigits(b) + ":" + TwoDigits(c);
      s[2] == ':' && s[5] == ':' && AllDigits(s[..2]) && AllDigits(s[3..5]) && AllDigits(s[6..])
      && DigitsValue(s[..2]) == a && DigitsValue(s[3..5]) == b && DigitsValue(s[6..]) == c
  {
    var s := TwoDigits(a) + ":" + TwoDigits(b) + ":" + TwoDigits(c);
    assert s[..2] == TwoDigits(a);
    assert s[3..5] == TwoDigits(b);
    assert s[6..] == TwoDigits(c);
    TwoDigitsValue(a);
    TwoDigitsValue(b);
    TwoDigitsValue(c);
  }

  /** `OffsetDateTime::from_unix_timestamp`: None when the seconds are outside the supported range. */
  function FromUnixSeconds(secs: int): (r: Option<int>)
    ensures r.Some? <==> MinUnixSeconds <= secs <= MaxUnixSeconds
    ensures r.Some? ==> Representable(r.value) && r.value / NanosPerSecond == secs
  {
    if MinUnixSeconds <= secs <= MaxUnixSeconds then Some(secs * NanosPerSecond) else None
  }

  /** `OffsetDateTime::UNIX_EPOCH + Duration::milliseconds(ms)`: None where the addition panics. */
  function AfterEpochMillis(ms: int): (r: Option<int>)
    ensures r.Some? <==> MinUnixSeconds * 1000 <= ms <= MaxUnixSeconds * 1000 + 999
    ensures r.Some? ==> Representable(r.value) && r.value / NanosPerMilli == ms && r.value % NanosPerMilli == 0
  {
    var t := ms * NanosPerMilli;
    if Representable(t) then Some(t) else None
  }

  /**
   * The proleptic Gregorian date (year, month, day) of a day number, by the
   * usual era/day-of-era decomposition (eras of 400 years, March-based years).
   */
  function CivilFromDays(days: int): (int, int, int) {
    var z := days + 719_468;
    var doe := z % 146_097;
    DateInEra(z / 146_097, YearOfEra(doe), doe - DaysBeforeYear(YearOfEra(doe)))
  }

  /** The (March-based) year of an era holding its `doe`-th day. */
  function YearOfEra(doe: int): int {
    (doe - doe / 1_460 + doe / 36_524 - doe / 146_096) / 365
  }

  /** The days of an era before its year `yoe`: 365 a year, plus a leap day every fourth year but not every hundredth. */
  function DaysBeforeYear(yoe: int): int {
    365 * yoe + yoe / 4 - yoe / 100
  }

  /** The date of the `doy`-th day (from March 1st) of year `yoe` of era `era`. */
  function DateInEra(era: int, yoe: int, doy: int): (int, int, int) {
    var mp := (5 * doy + 2) / 153;
    var d := doy - (153 * mp + 2) / 5 + 1;
    var m := if mp < 10 then mp + 3 else mp - 9;
    var y := yoe + era * 400 + (if m <= 2 then 1 else 0);
    (y, m, d)
  }

  /** `[year]`: at least four digits, zero-padded, with a '-' before a negative year. */
  function YearText(y: int): string {
    var n := if y < 0 then -y else y;
    var digits :=
      if n < 10000 then TwoDigits(n / 100) + TwoDigits(n % 100)
      else Decimal(n);
    if y < 0 then "-" + digits else digits
  }

  /** `[year]-[month]-[day]` of a day number, each field zero-padded (four, two, two digits). */
  function DateText(day: int): string {
    var (y, m, d) := CivilFromDays(day);
    YearText(y) + "-" + TwoDigits(m) + "-" + TwoDigits(d)
  }

  /** Days since 1970-01-01 of a proleptic Gregorian date: the inverse computation, by the same era decomposition. */
  function DaysFromCivil(y: int, m: int, d: int): int {
    var yy := if m <= 2 then y - 1 else y;
    var era := yy / 400;
    var yoe := yy - era * 400;
    var mp := if m > 2 then m - 3 else m + 9;
    var doy := (153 * mp + 2) / 5 + d - 1;
    era * 146_097 + DaysBeforeYear(yoe) + doy - 719_468
  }

  /**
   * Within an era, the year of the era is at most 399 and the day of the
   * (March-based) year at most 365: a century has 36524 days and a
   * four-year cycle 1461, except at the era's last day.
   */
  lemma YearOfEraBounds(doe: int)
    requires 0 <= doe <= 146_096
    ensures 0 <= YearOfEra(doe) <= 399 && 0 <= doe - DaysBeforeYear(YearOfEra(doe)) <= 365
  {
    if doe < 146_096 {
      var b := doe / 36_524;
      var r := doe % 36_524;
      var k := r / 1_461;
      var s := r % 1_461;
      assert b <= 3 && k <= 24;
      var e := (24 * b + k + s) / 1_460;
      assert doe == 1_460 * (25 * b + k) + (24 * b + k + s);
      assert doe / 1_460 == 25 * b + k + e;
      assert doe / 146_096 == 0;
      assert 0 <= s - e <= 1_459;
      var t := (s - e) / 365;
      var yoe := (doe - doe / 1_460 + doe / 36_524 - doe / 146_096) / 365;
      assert doe - doe / 1_460 + doe / 36_524 - doe / 146_096 == 365 * (100 * b + 4 * k + t) + (s - e) % 365;
      assert yoe == 100 * b + 4 * k + t;
      assert yoe / 4 == 25 * b + k;
      assert yoe / 100 == b;
    }
  }

  /** A day of a March-based year falls in one of its twelve months, on day 1 to 31. */
  lemma MonthOfYearBounds(doy: int)
    requires 0 <= doy <= 365
    ensures var mp := (5 * doy + 2) / 153;
      0 <= mp <= 11 && 0 <= doy - (153 * mp + 2) / 5 <= 30
  {
  }

  /**
   * The date of the `doy`-th day of year `yoe` of era `era` converts back to
   * that day; its month is 1 to 12 and its day of the month 1 to 31.
   */
  lemma EraDateRoundTrip(era: int, yoe: int, doy: int)
    requires 0 <= yoe <= 399 && 0 <= doy <= 365
    ensures var (y, m, d) := DateInEra(era, yoe, doy);
      1 <= m <= 12 && 1 <= d <= 31
      && DaysFromCivil(y, m, d) == era * 146_097 + DaysBeforeYear(yoe) + doy - 719_468
  {
    MonthOfYearBounds(doy);
    var yy := yoe + era * 400;
    assert yy / 400 == era;
    assert yy - era * 400 == yoe;
  }

  /**
   * The date of a day number is a month 1 to 12 and a day 1 to 31, and it
   * converts back to the same day number.
   */
  lemma CivilRoundTrip(days: int)
    ensures var (y, m, d) := CivilFromDays(days);
      1 <= m <= 12 && 1 <= d <= 31 && DaysFromCivil(y, m, d) == days
  {
    var z := days + 719_468;
    var era, doe := z / 146_097, z % 146_097;
    var yoe := YearOfEra(doe);
    var doy := doe - DaysBeforeYear(yoe);
    var date := CivilFromDays(days);
    assert date == DateInEra(era, yoe, doy);
    assert 1 <= date.1 <= 12 && 1 <= date.2 <= 31
      && DaysFromCivil(date.0, date.1, date.2) == era * 146_097 + doe - 719_468 by {
      YearOfEraBounds(doe);
      EraDateRoundTrip(era, yoe, doy);
    }
    assert era * 146_097 + doe == z;
  }

  /** The day numbers of 0000-01-01 and 9999-12-31: the years written with four digits. */
  const FirstFourDigitDay: int := -719_528
  const LastFourDigitDay: int := 2_932_896

  /** Every day from 0000-01-01 to 9999-12-31 lies in a year from 0 to 9999. */
  lemma FourDigitYear(days: int)
    requires FirstFourDigitDay <= days <= LastFourDigitDay
    ensures 0 <= CivilFromDays(days).0 <= 9999
  {
    var z := days + 719_468;
    var era := z / 146_097;
    var doe := z % 146_097;
    YearOfEraBounds(doe);
    var yoe := YearOfEra(doe);
    var doy := doe - DaysBeforeYear(yoe);
    assert CivilFromDays(days) == DateInEra(era, yoe, doy);
    YearInEra(era, yoe, doy);
    FourDigitEras(z);
    if era == -1 || era == 24 {
      LastYearOfEra(yoe, doy);
    }
  }

  /** The eras of the years 0 to 9999, with the days of their first and last eras that fall inside. */
  lemma FourDigitEras(z: int)
    requires -60 <= z <= 3_652_364
    ensures -1 <= z / 146_097 <= 24
    ensures z / 146_097 == -1 ==> z % 146_097 >= 146_037
    ensures z / 146_097 == 24 ==> z % 146_097 <= 146_036
  {
  }

  /** The year of a date in an era: a January or February belongs to the next calendar year. */
  lemma YearInEra(era: int, yoe: int, doy: int)
    requires 0 <= yoe <= 399 && 0 <= doy <= 365
    ensures DateInEra(era, yoe, doy).0 == yoe + era * 400 + (if doy >= 306 then 1 else 0)
  {
  }

  /** From the era's 146037th day on (1 January of its last year), the year of the era is 399. */
  lemma LastYearOfEra(yoe: int, doy: int)
    requires 0 <= yoe <= 399 && 0 <= doy <= 365
    ensures var doe := DaysBeforeYear(yoe) + doy;
      (doe >= 146_037 ==> yoe == 399 && doy >= 306) && (yoe == 399 && doe <= 146_036 ==> doy < 306)
  {
    if yoe < 399 {
      assert yoe / 4 <= 99 && yoe / 100 >= 0;
    }
  }

  /** Appending a digit multiplies the value read so far by ten and adds the digit. */
  lemma DigitsValueSnoc(s: string, c: char)
    requires AllDigits(s) && IsDigit(c)
    ensures AllDigits(s + [c]) && DigitsValue(s + [c]) == DigitsValue(s) * 10 + (c as int - '0' as int)
  {
    assert (s + [c])[..|s|] == s;
  }

  /** Two digits appended to a digit string shift its value by two places. */
  lemma DigitsValueAppendTwo(p: string, q: string)
    requires AllDigits(p) && AllDigits(q) && |q| == 2
    ensures AllDigits(p + q) && DigitsValue(p + q) == DigitsValue(p) * 100 + DigitsValue(q)
  {
    assert p + q == (p + [q[0]]) + [q[1]];
    DigitsValueSnoc(p, q[0]);
    DigitsValueSnoc(p + [q[0]], q[1]);
    assert q == [] + [q[0]] + [q[1]];
    DigitsValueSnoc([], q[0]);
    DigitsValueSnoc([q[0]], q[1]);
    assert [] + [q[0]] == [q[0]];
  }

  /** A year from 0 to 9999 is written as four digits that read back to it. */
  lemma YearTextValue(y: int)
    requires 0 <= y <= 9999
    ensures AllDigits(YearText(y)) && |YearText(y)| == 4 && DigitsValue(YearText(y)) == y
  {
    TwoDigitsValue(y / 100);
    TwoDigitsValue(y % 100);
    DigitsValueAppendTwo(TwoDigits(y / 100), TwoDigits(y % 100));
  }

  /**
   * The `[year]-[month]-[day]` text of a day from 0000-01-01 to 9999-12-31:
   * ten characters, '-' at positions 4 and 7, and digit fields that read
   * back to a month, a day of the month and the day number itself.
   */
  lemma DateTextReadsBack(days: int)
    requires FirstFourDigitDay <= days <= LastFourDigitDay
    ensures var s := DateText(days);
      |s| == 10 && s[4] == '-' && s[7] == '-'
      && AllDigits(s[..4]) && AllDigits(s[5..7]) && AllDigits(s[8..])
      && var y, m, d := DigitsValue(s[..4]), DigitsValue(s[5..7]), DigitsValue(s[8..]);
      y <= 9999 && 1 <= m <= 12 && 1 <= d <= 31 && DaysFromCivil(y, m, d) == days
  {
    var (y, m, d) := CivilFromDays(days);
    CivilRoundTrip(days);
    FourDigitYear(days);
    YearTextValue(y);
    TwoDigitsValue(m);
    TwoDigitsValue(d);
    var s := DateText(days);
    assert s == YearText(y) + "-" + TwoDigits(m) + "-" + TwoDigits(d);
    assert s[..4] == YearText(y);
    assert s[5..7] == TwoDigits(m);
    assert s[8..] == TwoDigits(d);
  }

  /** Two days from 0000-01-01 to 9999-12-31 have the same date text only when they are the same day. */
  lemma DateTextInjective(a: int, b: int)
    requires FirstFourDigitDay <= a <= LastFourDigitDay && FirstFourDigitDay <= b <= LastFourDigitDay
    requires DateText(a) == DateText(b)
    ensures a == b
  {
    DateTextReadsBack(a);
    DateTextReadsBack(b);
  }
}
