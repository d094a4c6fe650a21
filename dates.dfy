/**
 * Calendar dates as Python's `datetime.date` has them (proleptic Gregorian, year 1
 * onwards), the '%Y-%m-%d' text form used by the admin pages (`strftime` and `strptime`),
 * and naive timestamps counted in microseconds from 0001-01-01 00:00:00.
 */
module Dates {
  import opened Wrappers
  import Arith

  datatype Date = Date(year: int, month: int, day: int)

  predicate IsLeap(y: int) {
    y % 4 == 0 && (y % 100 != 0 || y % 400 == 0)
  }

  function DaysInYear(y: int): int {
    if IsLeap(y) then 366 else 365
  }

  function DaysInMonth(y: int, m: int): (n: int)
    requires 1 <= m <= 12
    ensures 28 <= n <= 31
  {
    if m == 2 then (if IsLeap(y) then 29 else 28)
    else if m == 4 || m == 6 || m == 9 || m == 11 then 30
    else 31
  }

  predicate Valid(d: Date) {
    1 <= d.year && 1 <= d.month <= 12 && 1 <= d.day <= DaysInMonth(d.year, d.month)
  }

  /** Days before January 1st of year `y`: the lengths of the years before it. */
  function DaysBeforeYear(y: int): int
    requires 1 <= y
    decreases y
  {
    if y == 1 then 0 else DaysBeforeYear(y - 1) + DaysInYear(y - 1)
  }

  /** Python's `_days_before_year` closed form. */
  function DaysBeforeYearFormula(y: int): int
    requires 1 <= y
  {
    var p := y - 1;
    p * 365 + p / 4 - p / 100 + p / 400
  }

  /** Days of year `y` before the first of month `m`. */
  function DaysBeforeMonth(y: int, m: int): (n: int)
    requires 1 <= m <= 12
    ensures 28 * (m - 1) <= n <= 31 * (m - 1)
  {
    if m == 1 then 0 else DaysBeforeMonth(y, m - 1) + DaysInMonth(y, m - 1)
  }

  /** `date.toordinal()`: 0001-01-01 is day 1. */
  function Ordinal(d: Date): int
    requires Valid(d)
  {
    DaysBeforeYear(d.year) + DaysBeforeMonth(d.year, d.month) + d.day
  }

  // ---- counting days -------------------------------------------------------------

  lemma DivStep(p: int)
    requires 0 <= p
    ensures (p + 1) / 4 - p / 4 == (if (p + 1) % 4 == 0 then 1 else 0)
    ensures (p + 1) / 100 - p / 100 == (if (p + 1) % 100 == 0 then 1 else 0)
    ensures (p + 1) / 400 - p / 400 == (if (p + 1) % 400 == 0 then 1 else 0)
  {
  }

  /** A multiple of 400 is a multiple of 100, and a multiple of 100 one of 4. */
  lemma LeapDivisors(y: int)
    ensures y % 400 == 0 ==> y % 100 == 0
    ensures y % 100 == 0 ==> y % 4 == 0
  {
    if y % 400 == 0 {
      Arith.ModUnique(y, 4 * (y / 400), 0, 100);
    }
    if y % 100 == 0 {
      Arith.ModUnique(y, 25 * (y / 100), 0, 4);
    }
  }

  /** Consecutive years differ by the length of the earlier one. */
  lemma DaysBeforeYearStep(y: int)
    requires 1 <= y
    ensures DaysBeforeYear(y + 1) == DaysBeforeYear(y) + DaysInYear(y)
  {
  }

  /** The count of the days of the years before `y` is Python's closed form. */
  lemma {:induction false} DaysBeforeYearClosed(y: int)
    requires 1 <= y
    ensures DaysBeforeYear(y) == DaysBeforeYearFormula(y)
    decreases y
  {
    if y > 1 {
      DaysBeforeYearClosed(y - 1);
      var p := y - 2;
      DivStep(p);
      LeapDivisors(y - 1);
      assert DaysBeforeYearFormula(y) == (p + 1) * 365 + (p + 1) / 4 - (p + 1) / 100 + (p + 1) / 400;
      assert DaysBeforeYearFormula(y - 1) == p * 365 + p / 4 - p / 100 + p / 400;
    }
  }

  lemma {:induction false} DaysBeforeYearMonotone(a: int, b: int)
    requires 1 <= a <= b
    ensures DaysBeforeYear(a) + (b - a) * 365 <= DaysBeforeYear(b)
    decreases b - a
  {
    if a < b {
      DaysBeforeYearMonotone(a, b - 1);
      DaysBeforeYearStep(b - 1);
    }
  }

  lemma DaysBeforeDecember(y: int)
    ensures DaysBeforeMonth(y, 12) + 31 == DaysInYear(y)
  {
    var feb := DaysInMonth(y, 2);
    assert DaysBeforeMonth(y, 2) == 31;
    assert DaysBeforeMonth(y, 3) == 31 + feb;
    assert DaysBeforeMonth(y, 4) == 62 + feb;
    assert DaysBeforeMonth(y, 5) == 92 + feb;
    assert DaysBeforeMonth(y, 6) == 123 + feb;
    assert DaysBeforeMonth(y, 7) == 153 + feb;
    assert DaysBeforeMonth(y, 8) == 184 + feb;
    assert DaysBeforeMonth(y, 9) == 215 + feb;
    assert DaysBeforeMonth(y, 10) == 245 + feb;
    assert DaysBeforeMonth(y, 11) == 276 + feb;
    assert DaysBeforeMonth(y, 12) == 306 + feb;
  }

  lemma {:induction false} DaysBeforeMonthMonotone(y: int, a: int, b: int)
    requires 1 <= a < b <= 12
    ensures DaysBeforeMonth(y, a) + DaysInMonth(y, a) <= DaysBeforeMonth(y, b)
    decreases b - a
  {
    if a + 1 < b {
      DaysBeforeMonthMonotone(y, a, b - 1);
    }
  }

  /** A valid date lies inside its year's range of ordinals. */
  lemma OrdinalWithinYear(d: Date)
    requires Valid(d)
    ensures DaysBeforeYear(d.year) < Ordinal(d) <= DaysBeforeYear(d.year + 1)
  {
    DaysBeforeYearStep(d.year);
    DaysBeforeDecember(d.year);
    if d.month < 12 {
      DaysBeforeMonthMonotone(d.year, d.month, 12);
    }
  }

  lemma FirstOrdinal(d: Date)
    requires Valid(d)
    ensures Ordinal(d) >= 1
    ensures Ordinal(d) == 1 <==> d == Date(1, 1, 1)
  {
    assert DaysBeforeYear(1) == 0;
    if d.year > 1 {
      OrdinalWithinYear(d);
      DaysBeforeYearMonotone(1, d.year);
      assert Ordinal(d) > 365;
    } else if d.month > 1 {
      DaysBeforeMonthMonotone(1, 1, d.month);
      assert Ordinal(d) > 31;
    } else {
      assert Ordinal(d) == d.day;
    }
  }

  /** Python compares dates as (year, month, day) tuples. */
  predicate Le(a: Date, b: Date) {
    a.year < b.year || (a.year == b.year && (a.month < b.month || (a.month == b.month && a.day <= b.day)))
  }

  /** For valid dates the tuple order is the order of ordinals. */
  lemma LeIffOrdinalLe(a: Date, b: Date)
    requires Valid(a) && Valid(b)
    ensures Le(a, b) <==> Ordinal(a) <= Ordinal(b)
  {
    if a.year < b.year {
      OrdinalWithinYear(a);
      OrdinalWithinYear(b);
      DaysBeforeYearMonotone(a.year + 1, b.year);
    } else if b.year < a.year {
      OrdinalWithinYear(a);
      OrdinalWithinYear(b);
      DaysBeforeYearMonotone(b.year + 1, a.year);
    } else if a.month < b.month {
      DaysBeforeMonthMonotone(a.year, a.month, b.month);
    } else if b.month < a.month {
      DaysBeforeMonthMonotone(a.year, b.month, a.month);
    }
  }

  /** `d + timedelta(days=1)`. */
  function NextDay(d: Date): (r: Date)
    requires Valid(d)
    ensures Valid(r) && Ordinal(r) == Ordinal(d) + 1
  {
    if d.day < DaysInMonth(d.year, d.month) then Date(d.year, d.month, d.day + 1)
    else if d.month < 12 then
      assert DaysBeforeMonth(d.year, d.month + 1) == DaysBeforeMonth(d.year, d.month) + DaysInMonth(d.year, d.month);
      Date(d.year, d.month + 1, 1)
    else
      DaysBeforeYearStep(d.year);
      DaysBeforeDecember(d.year);
      Date(d.year + 1, 1, 1)
  }

  /** `d - timedelta(days=1)`; 0001-01-01 has no predecessor. */
  function PrevDay(d: Date): (r: Date)
    requires Valid(d) && Ordinal(d) > 1
    ensures Valid(r) && Ordinal(r) == Ordinal(d) - 1
  {
    if d.day > 1 then Date(d.year, d.month, d.day - 1)
    else if d.month > 1 then
      assert DaysBeforeMonth(d.year, d.month) == DaysBeforeMonth(d.year, d.month - 1) + DaysInMonth(d.year, d.month - 1);
      Date(d.year, d.month - 1, DaysInMonth(d.year, d.month - 1))
    else
      FirstOrdinal(d);
      assert d.year > 1;
      DaysBeforeYearStep(d.year - 1);
      DaysBeforeDecember(d.year - 1);
      Date(d.year - 1, 12, 31)
  }

  /** `d - timedelta(days=k)`. */
  function DaysBack(d: Date, k: nat): (r: Date)
    requires Valid(d) && Ordinal(d) > k
    ensures Valid(r) && Ordinal(r) == Ordinal(d) - k
    decreases k
  {
    if k == 0 then d else PrevDay(DaysBack(d, k - 1))
  }

  /** Two valid dates with the same ordinal are the same date. */
  lemma OrdinalInjective(a: Date, b: Date)
    requires Valid(a) && Valid(b) && Ordinal(a) == Ordinal(b)
    ensures a == b
  {
    LeIffOrdinalLe(a, b);
    LeIffOrdinalLe(b, a);
  }

  // ---- timestamps ----------------------------------------------------------------

  /** A naive `datetime`, in microseconds since 0001-01-01 00:00:00. */
  type Timestamp = int

  /** One second, one minute (60 s) and one day (86 400 s), in microseconds. */
  const MicrosPerSecond: int := 1_000_000
  const MicrosPerMinute: int := 60_000_000
  const MicrosPerDay: int := 86_400_000_000

  /** `datetime.combine(d, datetime.min.time())`. */
  function DayStart(d: Date): Timestamp
    requires Valid(d)
  {
    (Ordinal(d) - 1) * MicrosPerDay
  }

  /** `datetime.combine(d, datetime.max.time())`, i.e. 23:59:59.999999. */
  function DayEnd(d: Date): Timestamp
    requires Valid(d)
  {
    DayStart(d) + MicrosPerDay - 1
  }

  /** A time lies in the window of one day number only. */
  lemma OneWindow(x: int, y: int, t: Timestamp)
    requires x * MicrosPerDay <= t <= x * MicrosPerDay + MicrosPerDay - 1
    requires y * MicrosPerDay <= t <= y * MicrosPerDay + MicrosPerDay - 1
    ensures x == y
  {
  }

  lemma WindowStep(o: int)
    ensures o * MicrosPerDay == (o - 1) * MicrosPerDay + MicrosPerDay
  {
  }

  /** The day windows of consecutive dates tile the time line without gap or overlap. */
  lemma NextDayWindow(d: Date)
    requires Valid(d)
    ensures DayStart(NextDay(d)) == DayEnd(d) + 1
  {
    WindowStep(Ordinal(d));
  }

  // ---- '%Y-%m-%d' ----------------------------------------------------------------

  function DigitChar(k: int): char
    requires 0 <= k <= 9
  {
    ('0' as int + k) as char
  }

  predicate IsDigit(c: char) {
    '0' <= c <= '9'
  }

  function DigitVal(c: char): (k: int)
    requires IsDigit(c)
    ensures 0 <= k <= 9
  {
    c as int - '0' as int
  }

  function Pow10(w: nat): (p: nat)
    ensures p >= 1
  {
    if w == 0 then 1 else 10 * Pow10(w - 1)
  }

  /** `n` written with exactly `w` digits, zero-padded on the left. */
  function Digits(n: nat, w: nat): (s: string)
    ensures |s| == w
    ensures forall i :: 0 <= i < |s| ==> IsDigit(s[i])
  {
    if w == 0 then "" else Digits(n / 10, w - 1) + [DigitChar(n % 10)]
  }

  /** The number a string of ASCII digits denotes. */
  function DigitsValue(s: string): (n: nat)
    requires forall i :: 0 <= i < |s| ==> IsDigit(s[i])
  {
    if s == [] then 0 else DigitsValue(s[..|s| - 1]) * 10 + DigitVal(s[|s| - 1])
  }

  lemma {:induction false} DigitsRoundTrip(n: nat, w: nat)
    requires n < Pow10(w)
    ensures DigitsValue(Digits(n, w)) == n
  {
    if w > 0 {
      var q, r := n / 10, n % 10;
      assert n == 10 * q + r;
      assert q < Pow10(w - 1);
      DigitsRoundTrip(q, w - 1);
      var s := Digits(n, w);
      assert s == Digits(q, w - 1) + [DigitChar(r)];
      assert s[..|s| - 1] == Digits(q, w - 1);
      assert DigitVal(s[|s| - 1]) == r;
      assert DigitsValue(s) == DigitsValue(Digits(q, w - 1)) * 10 + r;
    }
  }

  /** `d.strftime('%Y-%m-%d')`. */
  function Format(d: Date): (s: string)
    requires Valid(d)
    ensures |s| == 10 && s[4] == '-' && s[7] == '-'
  {
    Digits(d.year, 4) + "-" + Digits(d.month, 2) + "-" + Digits(d.day, 2)
  }

  /** The `%m` field of `strptime`, the pattern `1[0-2]|0[1-9]|[1-9]` followed by the
      literal '-': the month and the number of characters used, the '-' included. */
  function MonthField(t: string): (r: Option<(int, nat)>)
    ensures r.Some? ==> 1 <= r.value.0 <= 12 && 2 <= r.value.1 <= 3 && r.value.1 <= |t|
  {
    if |t| >= 3 && t[2] == '-' && ((t[0] == '1' && '0' <= t[1] <= '2') || (t[0] == '0' && '1' <= t[1] <= '9')) then
      Some((DigitVal(t[0]) * 10 + DigitVal(t[1]), 3))
    else if |t| >= 2 && t[1] == '-' && '1' <= t[0] <= '9' then
      Some((DigitVal(t[0]), 2))
    else
      None
  }

  /** The `%d` field, the pattern `3[01]|[12]\d|0[1-9]|[1-9]| [1-9]`, which must use up
      the rest of the text ("unconverted data remains" otherwise). */
  function DayField(t: string): (r: Option<int>)
    ensures r.Some? ==> 1 <= r.value <= 31
  {
    var used :=
      if |t| >= 2 && t[0] == '3' && '0' <= t[1] <= '1' then 2
      else if |t| >= 2 && '1' <= t[0] <= '2' && IsDigit(t[1]) then 2
      else if |t| >= 2 && t[0] == '0' && '1' <= t[1] <= '9' then 2
      else if |t| >= 1 && '1' <= t[0] <= '9' then 1
      else if |t| >= 2 && t[0] == ' ' && '1' <= t[1] <= '9' then 2
      else 0;
    if used == 0 || used != |t| then None
    else if used == 1 then Some(DigitVal(t[0]))
    else if t[0] == ' ' then Some(DigitVal(t[1]))
    else Some(DigitVal(t[0]) * 10 + DigitVal(t[1]))
  }

  /** `datetime.strptime(s, '%Y-%m-%d').date()`, `None` where it raises `ValueError`:
      four digits, '-', month, '-', day, nothing after, and a day that exists. */
  function ParseDate(s: string): (r: Option<Date>)
    ensures r.Some? ==> Valid(r.value)
  {
    if |s| < 5 || !(forall i :: 0 <= i < 4 ==> IsDigit(s[i])) || s[4] != '-' then None
    else
      var year := DigitsValue(s[..4]);
      match MonthField(s[5..])
      case None => None
      case Some((month, used)) =>
        match DayField(s[5 + used..])
        case None => None
        case Some(day) =>
          if 1 <= year && day <= DaysInMonth(year, month) then Some(Date(year, month, day)) else None
  }

  /** Two zero-padded digits: the tens, then the units. */
  lemma TwoDigits(n: nat)
    requires n < 100
    ensures Digits(n, 2) == [DigitChar(n / 10), DigitChar(n % 10)]
  {
    var t := n / 10;
    assert t < 10;
    Arith.ModUnique(t, 0, t, 10);
    assert Digits(t, 1) == Digits(t / 10, 0) + [DigitChar(t % 10)];
    assert Digits(n, 2) == Digits(t, 1) + [DigitChar(n % 10)];
  }

  /** The `%m` field reads back a month written with two digits. */
  lemma MonthFieldOfDigits(month: nat, rest: string)
    requires 1 <= month <= 12
    ensures MonthField(Digits(month, 2) + "-" + rest) == Some((month, 3))
  {
    TwoDigits(month);
    if month < 10 {
      assert month / 10 == 0 && month % 10 == month;
    } else {
      assert month / 10 == 1 && month % 10 == month - 10;
    }
  }

  /** The `%d` field reads back a day written with two digits. */
  lemma DayFieldOfDigits(day: nat)
    requires 1 <= day <= 31
    ensures DayField(Digits(day, 2)) == Some(day)
  {
    TwoDigits(day);
    if day < 10 {
      assert day / 10 == 0 && day % 10 == day;
    } else if day < 20 {
      assert day / 10 == 1 && day % 10 == day - 10;
    } else if day < 30 {
      assert day / 10 == 2 && day % 10 == day - 20;
    } else {
      assert day / 10 == 3 && day % 10 == day - 30;
    }
  }

  /** Reading back what `strftime` wrote gives the same date, for every four-digit year. */
  lemma FormatParseRoundTrip(d: Date)
    requires Valid(d) && d.year <= 9999
    ensures ParseDate(Format(d)) == Some(d)
  {
    var s := Format(d);
    var y, m, dd := Digits(d.year, 4), Digits(d.month, 2), Digits(d.day, 2);
    assert s[..4] == y;
    DigitsRoundTrip(d.year, 4);
    assert s[5..] == m + "-" + dd;
    MonthFieldOfDigits(d.month, dd);
    assert s[8..] == dd;
    DayFieldOfDigits(d.day);
  }

  /** A day field with trailing text is refused. */
  lemma ParseRefusesTrailingText()
    ensures ParseDate("2024-05-011") == None
  {
    assert "2024-05-011"[5..] == "05-011";
    assert MonthField("05-011") == Some((5, 3));
    assert "2024-05-011"[8..] == "011";
  }

  /** A day the month does not have is refused. */
  lemma ParseRefusesMissingDay()
    ensures ParseDate("2023-02-29") == None
  {
    assert "2023-02-29"[..4] == "2023";
    assert DigitsValue("2023") == 2023 by {
      assert "2023"[..3] == "202";
      assert "202"[..2] == "20";
      assert "20"[..1] == "2";
      assert "2"[..0] == "";
    }
    assert "2023-02-29"[5..] == "02-29";
    assert "2023-02-29"[8..] == "29";
  }

  /** `strptime` also takes one-digit months and days. */
  lemma ParseAcceptsShortFields()
    ensures ParseDate("2024-1-5") == Some(Date(2024, 1, 5))
  {
    assert "2024-1-5"[..4] == "2024";
    assert DigitsValue("2024") == 2024 by {
      assert "2024"[..3] == "202";
      assert "202"[..2] == "20";
      assert "20"[..1] == "2";
      assert "2"[..0] == "";
    }
    assert "2024-1-5"[5..] == "1-5";
    assert MonthField("1-5") == Some((1, 2));
    assert "2024-1-5"[7..] == "5";
  }
}
