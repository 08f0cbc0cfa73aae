/** Calendar fields of a timestamp and the two millisecond strings built from
    them: `format_timestamp` of the GPX processor (the CSV `time` column) and the
    `isoformat(timespec='milliseconds') + 'Z'` key of the TCX patcher. */
module TimeFormat {
  import opened Telemetry

  const MicrosPerDay: int := 86400000000

  /** Days from 0001-01-01 to 10000-01-01: one past `datetime.max`. */
  const DaysInRange: int := 3652059

  /** Instants are microseconds since 0001-01-01T00:00:00, the range of `datetime`. */
  const MaxMicros: int := DaysInRange * MicrosPerDay

  /** The fields of a naive `datetime`. */
  datatype DateTime = DateTime(year: nat, month: nat, day: nat, hour: nat, minute: nat, second: nat, microsecond: nat)

  predicate IsLeap(y: int)
  {
    y % 4 == 0 && (y % 100 != 0 || y % 400 == 0)
  }

  function DaysInYear(y: int): int
  {
    if IsLeap(y) then 366 else 365
  }

  function DaysInMonth(y: int, m: int): (r: int)
    ensures 28 <= r <= 31
  {
    if m == 2 then (if IsLeap(y) then 29 else 28)
    else if m == 4 || m == 6 || m == 9 || m == 11 then 30
    else 31
  }

  predicate WellFormed(d: DateTime)
  {
    && 1 <= d.year <= 9999 && 1 <= d.month <= 12 && 1 <= d.day <= DaysInMonth(d.year, d.month)
    && d.hour < 24 && d.minute < 60 && d.second < 60 && d.microsecond < 1000000
  }

  /** Days from January 1st of year y to the first of month m. */
  function DaysBeforeMonth(y: int, m: nat): int
    requires 1 <= m <= 13
  {
    if m == 1 then 0 else DaysBeforeMonth(y, m - 1) + DaysInMonth(y, m - 1)
  }

  /** Days from 0001-01-01 to January 1st of year y (Gregorian, proleptic). */
  function DaysBeforeYear(y: int): int
    requires y >= 1
  {
    var p := y - 1;
    p * 365 + p / 4 - p / 100 + p / 400
  }

  lemma MonthsFillYear(y: int)
    ensures DaysBeforeMonth(y, 13) == DaysInYear(y)
  {
    var leap := if IsLeap(y) then 1 else 0;
    assert DaysBeforeMonth(y, 2) == 31;
    assert DaysBeforeMonth(y, 3) == 59 + leap;
    assert DaysBeforeMonth(y, 4) == 90 + leap;
    assert DaysBeforeMonth(y, 5) == 120 + leap;
    assert DaysBeforeMonth(y, 6) == 151 + leap;
    assert DaysBeforeMonth(y, 7) == 181 + leap;
    assert DaysBeforeMonth(y, 8) == 212 + leap;
    assert DaysBeforeMonth(y, 9) == 243 + leap;
    assert DaysBeforeMonth(y, 10) == 273 + leap;
    assert DaysBeforeMonth(y, 11) == 304 + leap;
    assert DaysBeforeMonth(y, 12) == 334 + leap;
  }

  /** Each year adds its own length. */
  lemma YearStep(y: int)
    requires y >= 1
    ensures DaysBeforeYear(y + 1) == DaysBeforeYear(y) + DaysInYear(y)
  {
    var p := y - 1;
    assert y / 4 == p / 4 + (if y % 4 == 0 then 1 else 0);
    assert y / 100 == p / 100 + (if y % 100 == 0 then 1 else 0);
    assert y / 400 == p / 400 + (if y % 400 == 0 then 1 else 0);
  }

  lemma {:induction false} DaysBeforeYearMonotone(y: int, z: int)
    requires 1 <= y <= z
    ensures DaysBeforeYear(y) + 365 * (z - y) <= DaysBeforeYear(z)
    decreases z - y
  {
    if y < z {
      YearStep(y);
      DaysBeforeYearMonotone(y + 1, z);
    }
  }

  /** Month and day of the n-th day (0-based) counted from the first of month m. */
  function MonthDay(y: int, n: nat, m: nat): (nat, nat)
    requires 1 <= m <= 12
    decreases 12 - m
  {
    if m == 12 || n < DaysInMonth(y, m) then (m, n + 1)
    else MonthDay(y, n - DaysInMonth(y, m), m + 1)
  }

  lemma {:induction false} MonthDayCorrect(y: int, n: nat, m: nat)
    requires 1 <= m <= 12 && DaysBeforeMonth(y, m) + n < DaysInYear(y)
    ensures var (mm, dd) := MonthDay(y, n, m);
      && m <= mm <= 12 && 1 <= dd <= DaysInMonth(y, mm)
      && DaysBeforeMonth(y, mm) + dd - 1 == DaysBeforeMonth(y, m) + n
    decreases 12 - m
  {
    if m == 12 {
      MonthsFillYear(y);
    } else if n >= DaysInMonth(y, m) {
      MonthDayCorrect(y, n - DaysInMonth(y, m), m + 1);
    }
  }

  /** Year, month and day of the n-th day (0-based) counted from January 1st of year y. */
  function Civil(n: nat, y: nat): (nat, nat, nat)
    requires y >= 1
    decreases n
  {
    if n < DaysInYear(y) then
      var (m, d) := MonthDay(y, n, 1);
      (y, m, d)
    else Civil(n - DaysInYear(y), y + 1)
  }

  lemma {:induction false} CivilCorrect(n: nat, y: nat)
    requires y >= 1
    ensures var (yy, mm, dd) := Civil(n, y);
      && y <= yy && 1 <= mm <= 12 && 1 <= dd <= DaysInMonth(yy, mm)
      && DaysBeforeYear(yy) + DaysBeforeMonth(yy, mm) + dd - 1 == DaysBeforeYear(y) + n
      && DaysBeforeYear(yy) <= DaysBeforeYear(y) + n
    decreases n
  {
    if n < DaysInYear(y) {
      MonthDayCorrect(y, n, 1);
    } else {
      YearStep(y);
      CivilCorrect(n - DaysInYear(y), y + 1);
    }
  }

  /** A day before 10000-01-01 falls in a four-digit year. */
  lemma CivilWithinRange(n: nat)
    requires n < DaysInRange
    ensures Civil(n, 1).0 <= 9999
  {
    CivilCorrect(n, 1);
    var y := Civil(n, 1).0;
    if y >= 10000 {
      DaysBeforeYearMonotone(10000, y);
    }
  }

  /** Days since 0001-01-01 of a date, `date.toordinal() - 1`. */
  function Ordinal(d: DateTime): int
    requires d.year >= 1 && 1 <= d.month <= 12
  {
    DaysBeforeYear(d.year) + DaysBeforeMonth(d.year, d.month) + d.day - 1
  }

  function ToMicros(d: DateTime): Micros
    requires d.year >= 1 && 1 <= d.month <= 12
  {
    Ordinal(d) * MicrosPerDay + d.hour * 3600000000 + d.minute * 60000000 + d.second * 1000000 + d.microsecond
  }

  /** The `datetime` at instant t. */
  function FromMicros(t: Micros): (d: DateTime)
    requires 0 <= t < MaxMicros
    ensures WellFormed(d) && ToMicros(d) == t
  {
    var days := t / MicrosPerDay;
    var rest := t % MicrosPerDay;
    var (y, m, dd) := Civil(days, 1);
    CivilCorrect(days, 1);
    CivilWithinRange(days);
    var d := DateTime(y, m, dd, rest / 3600000000, rest / 60000000 % 60, rest / 1000000 % 60, rest % 1000000);
    TimeOfDay(t);
    d
  }

  /** An instant is its day plus hours, minutes, seconds and microseconds of that day. */
  lemma TimeOfDay(t: Micros)
    requires t >= 0
    ensures var rest := t % MicrosPerDay;
      && t == t / MicrosPerDay * MicrosPerDay + rest
      && rest / 3600000000 < 24
      && rest == rest / 3600000000 * 3600000000 + rest / 60000000 % 60 * 60000000
                 + rest / 1000000 % 60 * 1000000 + rest % 1000000
  {
    var rest := t % MicrosPerDay;
    var s := rest / 1000000;
    assert rest == s * 1000000 + rest % 1000000;
    assert s == s / 60 * 60 + s % 60;
    assert s / 60 == rest / 60000000;
    assert rest / 60000000 == rest / 60000000 / 60 * 60 + rest / 60000000 % 60;
    assert rest / 60000000 / 60 == rest / 3600000000;
  }

  predicate IsDigit(c: char)
  {
    '0' <= c <= '9'
  }

  function Pow10(w: nat): (r: nat)
    ensures r >= 1
  {
    if w == 0 then 1 else 10 * Pow10(w - 1)
  }

  function Digit(n: nat): (c: char)
    requires n < 10
    ensures IsDigit(c)
  {
    (48 + n) as char
  }

  /** The low w decimal digits of n, zero-padded: `%0wd` when n < 10^w. */
  function Fixed(n: nat, w: nat): (r: string)
    ensures |r| == w && forall i :: 0 <= i < w ==> IsDigit(r[i])
  {
    if w == 0 then "" else Fixed(n / 10, w - 1) + [Digit(n % 10)]
  }

  /** The number a string of decimal digits spells. */
  function Value(s: string): nat
    requires forall i :: 0 <= i < |s| ==> IsDigit(s[i])
  {
    if |s| == 0 then 0
    else
      assert IsDigit(s[|s| - 1]);
      10 * Value(s[..|s| - 1]) + (s[|s| - 1] as int - 48)
  }

  lemma {:induction false} ValueFixed(n: nat, w: nat)
    requires n < Pow10(w)
    ensures Value(Fixed(n, w)) == n
  {
    if w > 0 {
      ValueFixed(n / 10, w - 1);
      assert Fixed(n, w)[..w - 1] == Fixed(n / 10, w - 1);
    }
  }

  /** Cutting the last three of six microsecond digits leaves the milliseconds. */
  lemma DropThreeDigits(n: nat)
    ensures Fixed(n, 6)[..3] == Fixed(n / 1000, 3)
  {
    assert Fixed(n, 6)[..5] == Fixed(n / 10, 5);
    assert Fixed(n / 10, 5)[..4] == Fixed(n / 100, 4);
    assert Fixed(n / 100, 4)[..3] == Fixed(n / 1000, 3);
  }

  /** `%Y-%m-%dT%H:%M:%S.` */
  function Head(d: DateTime): (r: string)
    ensures |r| == 20
  {
    Fixed(d.year, 4) + "-" + Fixed(d.month, 2) + "-" + Fixed(d.day, 2) + "T"
      + Fixed(d.hour, 2) + ":" + Fixed(d.minute, 2) + ":" + Fixed(d.second, 2) + "."
  }

  /** `YYYY-MM-DDTHH:MM:SS.mmmZ`: digits everywhere but at the separators. */
  predicate KeyShape(s: string)
  {
    && |s| == 24
    && s[4] == '-' && s[7] == '-' && s[10] == 'T' && s[13] == ':' && s[16] == ':' && s[19] == '.' && s[23] == 'Z'
    && forall i :: 0 <= i < 23 && i !in {4, 7, 10, 13, 16, 19} ==> IsDigit(s[i])
  }

  /** `dt.strftime('%Y-%m-%dT%H:%M:%S.%f')`, with `%Y` as four digits. */
  function Strftime(d: DateTime): (r: string)
    ensures |r| == 26
  {
    Head(d) + Fixed(d.microsecond, 6)
  }

  /** `format_timestamp(dt)`: the strftime string minus its last three characters, then `Z`. */
  function FormatTimestamp(d: DateTime): (r: string)
    ensures KeyShape(r)
    ensures r[..20] == Head(d) && r[20..23] == Fixed(d.microsecond / 1000, 3)
  {
    var s := Strftime(d);
    DropThreeDigits(d.microsecond);
    assert s[20..23] == Fixed(d.microsecond, 6)[..3];
    s[..|s| - 3] + "Z"
  }

  /** `dt.isoformat(timespec='milliseconds') + 'Z'` for a naive `dt`. */
  function IsoMillisZ(d: DateTime): string
  {
    Head(d) + Fixed(d.microsecond / 1000, 3) + "Z"
  }

  /** The CSV `time` column and the TCX lookup key are the same string: both
      truncate the microseconds to milliseconds. */
  lemma FormatIsIsoKey(d: DateTime)
    ensures FormatTimestamp(d) == IsoMillisZ(d)
  {
    var r := FormatTimestamp(d);
    assert r == r[..20] + r[20..23] + r[23..];
  }

  /** `d` with its microseconds cut to whole milliseconds. */
  function Truncated(d: DateTime): DateTime
  {
    d.(microsecond := d.microsecond / 1000 * 1000)
  }

  /** Reads a key string back into its fields. */
  function KeyFields(s: string): Option<DateTime>
  {
    if KeyShape(s) then
      Some(DateTime(Value(s[0..4]), Value(s[5..7]), Value(s[8..10]), Value(s[11..13]),
                    Value(s[14..16]), Value(s[17..19]), Value(s[20..23]) * 1000))
    else None
  }

  /** Reading a formatted timestamp back gives the instant truncated to the millisecond. */
  lemma KeyFieldsRoundTrip(d: DateTime)
    requires WellFormed(d)
    ensures KeyFields(FormatTimestamp(d)) == Some(Truncated(d))
  {
    FormatFields(d);
    assert Pow10(2) == 100 && Pow10(3) == 1000 && Pow10(4) == 10000;
    ValueFixed(d.year, 4);
    ValueFixed(d.month, 2);
    ValueFixed(d.day, 2);
    ValueFixed(d.hour, 2);
    ValueFixed(d.minute, 2);
    ValueFixed(d.second, 2);
    ValueFixed(d.microsecond / 1000, 3);
  }

  /** Where each field sits in a formatted timestamp. */
  lemma FormatFields(d: DateTime)
    ensures var s := FormatTimestamp(d);
      && s[0..4] == Fixed(d.year, 4) && s[5..7] == Fixed(d.month, 2) && s[8..10] == Fixed(d.day, 2)
      && s[11..13] == Fixed(d.hour, 2) && s[14..16] == Fixed(d.minute, 2) && s[17..19] == Fixed(d.second, 2)
      && s[20..23] == Fixed(d.microsecond / 1000, 3)
  {
    var s := FormatTimestamp(d);
    var h := Head(d);
    assert s[..20] == h;
    assert h[0..4] == Fixed(d.year, 4);
    assert h[5..7] == Fixed(d.month, 2);
    assert h[8..10] == Fixed(d.day, 2);
    assert h[11..13] == Fixed(d.hour, 2);
    assert h[14..16] == Fixed(d.minute, 2);
    assert h[17..19] == Fixed(d.second, 2);
  }

  /** Truncating an instant's fields to the millisecond truncates the instant. */
  lemma TruncatedMicros(t: Micros)
    requires 0 <= t < MaxMicros
    ensures var d := Truncated(FromMicros(t)); d.year >= 1 && 1 <= d.month <= 12 && ToMicros(d) == t / 1000 * 1000
  {
    var d := FromMicros(t);
    var o := Ordinal(d);
    var w := o * 86400000 + d.hour * 3600000 + d.minute * 60000 + d.second * 1000;
    assert t == 1000 * w + d.microsecond;
    assert t == 1000 * (w + d.microsecond / 1000) + d.microsecond % 1000;
    assert t / 1000 == w + d.microsecond / 1000;
  }

  /** Two instants get the same timestamp string exactly when they fall in the same
      millisecond: the string match the TCX patcher relies on is millisecond equality. */
  lemma SameKeyIffSameMillisecond(t1: Micros, t2: Micros)
    requires 0 <= t1 < MaxMicros && 0 <= t2 < MaxMicros
    ensures FormatTimestamp(FromMicros(t1)) == FormatTimestamp(FromMicros(t2)) <==> t1 / 1000 == t2 / 1000
  {
    var d1, d2 := FromMicros(t1), FromMicros(t2);
    if FormatTimestamp(d1) == FormatTimestamp(d2) {
      KeyFieldsRoundTrip(d1);
      KeyFieldsRoundTrip(d2);
      assert Truncated(d1) == Truncated(d2);
      TruncatedMicros(t1);
      TruncatedMicros(t2);
      assert t1 / 1000 * 1000 == t2 / 1000 * 1000;
    }
    if t1 / 1000 == t2 / 1000 {
      SameMillisecondSameFields(t1, t2);
      FormatIsIsoKey(d1);
      FormatIsIsoKey(d2);
      assert Head(d1) == Head(d2) && d1.microsecond / 1000 == d2.microsecond / 1000;
    }
  }

  lemma SameMillisecondSameFields(t1: Micros, t2: Micros)
    requires 0 <= t1 < MaxMicros && 0 <= t2 < MaxMicros && t1 / 1000 == t2 / 1000
    ensures Truncated(FromMicros(t1)) == Truncated(FromMicros(t2))
  {
    var m := t1 / 1000;
    assert t1 / MicrosPerDay == m / 86400000 == t2 / MicrosPerDay;
    var r1, r2 := t1 % MicrosPerDay, t2 % MicrosPerDay;
    var q := m % 86400000;
    assert r1 / 1000 == q == r2 / 1000;
    assert r1 / 3600000000 == q / 3600000 == r2 / 3600000000;
    assert r1 / 60000000 == q / 60000 == r2 / 60000000;
    assert r1 / 1000000 == q / 1000 == r2 / 1000000;
    assert r1 % 1000000 / 1000 == q % 1000 == r2 % 1000000 / 1000;
  }
}
