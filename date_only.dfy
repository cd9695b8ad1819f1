/**
 * The calendar-day identity used by the date picker: Go's `time.DateOnly`
 * layout ("2006-01-02"), i.e. `YYYY-MM-DD` in the proleptic Gregorian
 * calendar.  A date is a day number: the count of days since 1970-01-01.
 *
 * `Format` follows Go's `Time.Format` for this layout (a negative year is
 * written with a leading '-', a year above 9999 with all of its digits) and
 * `Parse` follows Go's `time.Parse` for it (exactly four year digits, two
 * month digits in 1..12, two day digits within the month, nothing after).
 * So the two agree exactly on the years 0000..9999 and nowhere else.
 */
module DateOnly {
  import opened Wrappers

  /** A calendar date; `month` is 1..12 and `day` is 1-based. */
  datatype Civil = Civil(year: int, month: int, day: int)

  predicate IsLeap(y: int)
  {
    y % 4 == 0 && (y % 100 != 0 || y % 400 == 0)
  }

  function DaysInYear(y: int): int
  {
    if IsLeap(y) then 366 else 365
  }

  function DaysInMonth(y: int, m: int): int
    requires 1 <= m <= 12
  {
    if m == 2 then (if IsLeap(y) then 29 else 28)
    else if m == 4 || m == 6 || m == 9 || m == 11 then 30
    else 31
  }

  /** Days of year `y` that come before the first of month `m` (`m == 13`: the whole year). */
  function DaysBeforeMonth(y: int, m: int): int
    requires 1 <= m <= 13
  {
    var leap := if IsLeap(y) then 1 else 0;
    if m == 1 then 0
    else if m == 2 then 31
    else if m == 3 then 59 + leap
    else if m == 4 then 90 + leap
    else if m == 5 then 120 + leap
    else if m == 6 then 151 + leap
    else if m == 7 then 181 + leap
    else if m == 8 then 212 + leap
    else if m == 9 then 243 + leap
    else if m == 10 then 273 + leap
    else if m == 11 then 304 + leap
    else if m == 12 then 334 + leap
    else 365 + leap
  }

  lemma MonthStep(y: int, m: int)
    requires 1 <= m <= 12
    ensures DaysBeforeMonth(y, m + 1) == DaysBeforeMonth(y, m) + DaysInMonth(y, m)
    ensures DaysBeforeMonth(y, 13) == DaysInYear(y)
  {
  }

  /** Days from 0000-01-01 to the first of January of year `y` (negative before year 0). */
  function DaysBeforeYear(y: int): int
  {
    365 * y + (y + 3) / 4 - (y + 99) / 100 + (y + 399) / 400
  }

  /** Day number (days since 1970-01-01) of 0000-01-01 is `-UnixEpochOffset`. */
  const UnixEpochOffset: int := 719528

  lemma UnixEpochOffsetIs1970()
    ensures DaysBeforeYear(1970) == UnixEpochOffset
  {
  }

  /** Counting the multiples of 4 (or 100, or 400) below y: one more below y + 1 exactly when y is one. */
  lemma MultiplesStep(y: int)
    ensures (y + 4) / 4 == (y + 3) / 4 + (if y % 4 == 0 then 1 else 0)
    ensures (y + 100) / 100 == (y + 99) / 100 + (if y % 100 == 0 then 1 else 0)
    ensures (y + 400) / 400 == (y + 399) / 400 + (if y % 400 == 0 then 1 else 0)
  {
    var q1, q2, q3 := y / 4, y / 100, y / 400;
    assert y == 4 * q1 + y % 4 && y == 100 * q2 + y % 100 && y == 400 * q3 + y % 400;
    assert (y + 4) / 4 == q1 + 1 && (y + 100) / 100 == q2 + 1 && (y + 400) / 400 == q3 + 1;
    assert (y + 3) / 4 == if y % 4 == 0 then q1 else q1 + 1;
    assert (y + 99) / 100 == if y % 100 == 0 then q2 else q2 + 1;
    assert (y + 399) / 400 == if y % 400 == 0 then q3 else q3 + 1;
  }

  /** A multiple of 400 is a multiple of 100, which is a multiple of 4. */
  lemma MultiplesNest(y: int)
    ensures y % 400 == 0 ==> y % 100 == 0
    ensures y % 100 == 0 ==> y % 4 == 0
  {
    var q1, q2, q3 := y / 4, y / 100, y / 400;
    assert y == 4 * q1 + y % 4 && y == 100 * q2 + y % 100 && y == 400 * q3 + y % 400;
    if y % 400 == 0 {
      assert y % 100 == 100 * (4 * q3 - q2);
    }
    if y % 100 == 0 {
      assert y % 4 == 4 * (25 * q2 - q1);
    }
  }

  lemma YearStep(y: int)
    ensures DaysBeforeYear(y + 1) == DaysBeforeYear(y) + DaysInYear(y)
  {
    MultiplesStep(y);
    MultiplesNest(y);
    assert DaysInYear(y) == 365 + (if y % 4 == 0 then 1 else 0) - (if y % 100 == 0 then 1 else 0) + (if y % 400 == 0 then 1 else 0);
  }

  /** The length of `y` years is 146097/400 days per year, give or take under two days. */
  lemma DaysBeforeYearBounds(y: int)
    ensures -396 <= 400 * DaysBeforeYear(y) - 146097 * y <= 699
  {
    var q1, q2, q3 := (y + 3) / 4, (y + 99) / 100, (y + 399) / 400;
    assert 4 * q1 <= y + 3 < 4 * q1 + 4;
    assert 100 * q2 <= y + 99 < 100 * q2 + 100;
    assert 400 * q3 <= y + 399 < 400 * q3 + 400;
  }

  lemma DaysBeforeYearMonotone(a: int, b: int)
    requires a < b
    ensures DaysBeforeYear(a + 1) <= DaysBeforeYear(b)
  {
    if a + 1 < b {
      DaysBeforeYearBounds(a + 1);
      DaysBeforeYearBounds(b);
    }
  }

  /** 400 Gregorian years always last 146097 days. */
  lemma FourCenturies(y: int)
    ensures DaysBeforeYear(y + 400) == DaysBeforeYear(y) + 146097
  {
    assert (y + 403) / 4 == (y + 3) / 4 + 100;
    assert (y + 499) / 100 == (y + 99) / 100 + 4;
    assert (y + 799) / 400 == (y + 399) / 400 + 1;
  }

  lemma FirstCycle()
    ensures DaysBeforeYear(0) == 0 && DaysBeforeYear(400) == 146097
  {
  }

  /** A day 400 years earlier falls in the year 400 years earlier. */
  lemma CycleBack(n: int, y: int)
    requires DaysBeforeYear(y) <= n + 146097 < DaysBeforeYear(y + 1)
    ensures DaysBeforeYear(y - 400) <= n < DaysBeforeYear(y - 400 + 1)
  {
    FourCenturies(y - 400);
    FourCenturies(y - 399);
  }

  /** A day 400 years later falls in the year 400 years later. */
  lemma CycleForward(n: int, y: int)
    requires DaysBeforeYear(y) <= n - 146097 < DaysBeforeYear(y + 1)
    ensures DaysBeforeYear(y + 400) <= n < DaysBeforeYear(y + 400 + 1)
  {
    FourCenturies(y);
    FourCenturies(y + 1);
  }

  /** How far day `n` lies from the first 400-year cycle, which starts at day 0. */
  function CycleDistance(n: int): nat
  {
    if n < 0 then 146097 - n else n
  }

  /** The year in which day `n` (counted from 0000-01-01) falls: whole 400-year cycles, then year by year. */
  function YearOf(n: int): (y: int)
    ensures DaysBeforeYear(y) <= n < DaysBeforeYear(y + 1)
    decreases CycleDistance(n), 1
  {
    if n < 0 then YearOfEarlier(n)
    else if n >= 146097 then YearOfLater(n)
    else
      FirstCycle();
      YearInCycle(n, 0)
  }

  /** A day before year 0 falls 400 years before the year of the day one cycle later. */
  function YearOfEarlier(n: int): (y: int)
    requires n < 0
    ensures DaysBeforeYear(y) <= n < DaysBeforeYear(y + 1)
    decreases CycleDistance(n), 0
  {
    var y := YearOf(n + 146097);
    CycleBack(n, y);
    y - 400
  }

  /** A day after the first cycle falls 400 years after the year of the day one cycle earlier. */
  function YearOfLater(n: int): (y: int)
    requires n >= 146097
    ensures DaysBeforeYear(y) <= n < DaysBeforeYear(y + 1)
    decreases CycleDistance(n), 0
  {
    var y := YearOf(n - 146097);
    CycleForward(n, y);
    y + 400
  }

  /** The year, from `y` on, in which day `n` of the first 400-year cycle falls. */
  function YearInCycle(n: int, y: int): (r: int)
    requires 0 <= y < 400 && DaysBeforeYear(y) <= n < DaysBeforeYear(400)
    ensures y <= r < 400 && DaysBeforeYear(r) <= n < DaysBeforeYear(r + 1)
    decreases 400 - y
  {
    if n < DaysBeforeYear(y + 1) then y else YearInCycle(n, y + 1)
  }

  /** The month of year `y`, from `m` on, in which its day `r` (0-based) falls. */
  function MonthFrom(y: int, r: int, m: int): (res: int)
    requires 1 <= m <= 12 && DaysBeforeMonth(y, m) <= r < DaysInYear(y)
    ensures m <= res <= 12
    ensures DaysBeforeMonth(y, res) <= r < DaysBeforeMonth(y, res + 1)
    decreases 12 - m
  {
    MonthStep(y, m);
    if r < DaysBeforeMonth(y, m + 1) then m else MonthFrom(y, r, m + 1)
  }

  /** The month of year `y` in which its day `r` (0-based) falls. */
  function MonthOf(y: int, r: int): (m: int)
    requires 0 <= r < DaysInYear(y)
    ensures 1 <= m <= 12
    ensures DaysBeforeMonth(y, m) <= r < DaysBeforeMonth(y, m + 1)
  {
    MonthFrom(y, r, 1)
  }

  lemma DaysBeforeMonthMonotone(y: int, a: int, b: int)
    requires 1 <= a < b <= 13
    ensures DaysBeforeMonth(y, a + 1) <= DaysBeforeMonth(y, b)
  {
  }

  predicate ValidCivil(c: Civil)
  {
    1 <= c.month <= 12 && 1 <= c.day <= DaysInMonth(c.year, c.month)
  }

  /** The day number of a calendar date. */
  function DaysFromCivil(c: Civil): int
    requires ValidCivil(c)
  {
    DaysBeforeYear(c.year) + DaysBeforeMonth(c.year, c.month) + c.day - 1 - UnixEpochOffset
  }

  /** The calendar date of a day number. */
  function CivilFromDays(d: int): (c: Civil)
    ensures ValidCivil(c)
    ensures DaysFromCivil(c) == d
  {
    var n := d + UnixEpochOffset;
    var y := YearOf(n);
    YearStep(y);
    var r := n - DaysBeforeYear(y);
    var m := MonthOf(y, r);
    MonthStep(y, m);
    Civil(y, m, r - DaysBeforeMonth(y, m) + 1)
  }

  /** A day falls in exactly one year. */
  lemma YearOfUnique(n: int, y: int)
    requires DaysBeforeYear(y) <= n < DaysBeforeYear(y + 1)
    ensures YearOf(n) == y
  {
    var y' := YearOf(n);
    if y' < y {
      DaysBeforeYearMonotone(y', y);
    } else if y < y' {
      DaysBeforeYearMonotone(y, y');
    }
  }

  /** A day of a year falls in exactly one month. */
  lemma MonthOfUnique(y: int, r: int, m: int)
    requires 1 <= m <= 12
    requires DaysBeforeMonth(y, m) <= r < DaysBeforeMonth(y, m + 1)
    ensures 0 <= r < DaysInYear(y)
    ensures MonthOf(y, r) == m
  {
    MonthStep(y, 12);
    if m < 12 {
      DaysBeforeMonthMonotone(y, m, 13);
    }
    var m' := MonthOf(y, r);
    if m' < m {
      DaysBeforeMonthMonotone(y, m', m);
    } else if m < m' {
      DaysBeforeMonthMonotone(y, m, m');
    }
  }

  /** The 0-based day of the year of a valid date lies in its month, and in its year. */
  lemma DayOfYearOfCivil(c: Civil)
    requires ValidCivil(c)
    ensures var r := DaysBeforeMonth(c.year, c.month) + c.day - 1;
      && DaysBeforeMonth(c.year, c.month) <= r < DaysBeforeMonth(c.year, c.month + 1)
      && 0 <= r < DaysInYear(c.year)
  {
    MonthStep(c.year, c.month);
    MonthOfUnique(c.year, DaysBeforeMonth(c.year, c.month) + c.day - 1, c.month);
  }

  /** The date of a day number is fixed by the year and the month the day falls in. */
  lemma CivilFromDaysIn(d: int, y: int, m: int)
    requires DaysBeforeYear(y) <= d + UnixEpochOffset < DaysBeforeYear(y + 1)
    requires 1 <= m <= 12
    requires DaysBeforeMonth(y, m) <= d + UnixEpochOffset - DaysBeforeYear(y) < DaysBeforeMonth(y, m + 1)
    ensures CivilFromDays(d) == Civil(y, m, d + UnixEpochOffset - DaysBeforeYear(y) - DaysBeforeMonth(y, m) + 1)
  {
    YearOfUnique(d + UnixEpochOffset, y);
    MonthOfUnique(y, d + UnixEpochOffset - DaysBeforeYear(y), m);
  }

  /** Calendar dates and day numbers are in one-to-one correspondence. */
  lemma CivilFromDaysOfCivil(c: Civil)
    requires ValidCivil(c)
    ensures CivilFromDays(DaysFromCivil(c)) == c
  {
    DayOfYearOfCivil(c);
    YearStep(c.year);
    CivilFromDaysIn(DaysFromCivil(c), c.year, c.month);
  }

  /** The first and last day numbers whose year has four digits (0000-01-01 and 9999-12-31). */
  const MinDay: int := -UnixEpochOffset
  const MaxDay: int := 3652425 - UnixEpochOffset - 1

  predicate Representable(d: int)
  {
    MinDay <= d <= MaxDay
  }

  /** The representable days are exactly those of the years 0000 through 9999. */
  lemma RepresentableYears(d: int)
    ensures Representable(d) <==> 0 <= CivilFromDays(d).year <= 9999
  {
    var n := d + UnixEpochOffset;
    var y := CivilFromDays(d).year;
    assert DaysBeforeYear(0) == 0 && DaysBeforeYear(10000) == 3652425;
    if y < 0 {
      DaysBeforeYearMonotone(y, 0);
    }
    if 9999 < y {
      DaysBeforeYearMonotone(9999, y);
    }
    if Representable(d) {
      if y < 0 {
        DaysBeforeYearMonotone(y, 0);
      } else if 9999 < y {
        DaysBeforeYearMonotone(9999, y);
      }
    } else if n < 0 {
      if 0 <= y {
        if 0 < y { DaysBeforeYearMonotone(0, y); }
      }
    } else {
      if y <= 9999 {
        if y < 9999 { DaysBeforeYearMonotone(y, 9999); }
        YearStep(9999);
      }
    }
  }

  // ---------------------------------------------------------------- text

  predicate IsDigit(c: char)
  {
    '0' <= c <= '9'
  }

  function DigitChar(k: int): (c: char)
    requires 0 <= k <= 9
    ensures IsDigit(c) && c as int - '0' as int == k
  {
    ('0' as int + k) as char
  }

  function DigitValue(c: char): (k: int)
    requires IsDigit(c)
    ensures 0 <= k <= 9 && DigitChar(k) == c
  {
    c as int - '0' as int
  }

  /** The decimal digits of `n`, zero-padded on the left to at least `width` characters. */
  function Decimal(n: nat, width: nat): (s: string)
    ensures |s| >= width && |s| >= 1
    ensures forall i :: 0 <= i < |s| ==> IsDigit(s[i])
    decreases n, width
  {
    if n < 10 && width <= 1 then [DigitChar(n)]
    else Decimal(n / 10, if width == 0 then 0 else width - 1) + [DigitChar(n % 10)]
  }

  lemma DecimalOfFour(n: nat)
    requires n <= 9999
    ensures Decimal(n, 4) == [DigitChar(n / 1000), DigitChar(n / 100 % 10), DigitChar(n / 10 % 10), DigitChar(n % 10)]
  {
    assert n / 10 / 10 == n / 100 && n / 100 / 10 == n / 1000 && n / 1000 < 10;
    assert Decimal(n / 1000, 1) == [DigitChar(n / 1000)];
    assert Decimal(n / 100, 2) == Decimal(n / 1000, 1) + [DigitChar(n / 100 % 10)];
    assert Decimal(n / 10, 3) == Decimal(n / 100, 2) + [DigitChar(n / 10 % 10)];
    assert Decimal(n, 4) == Decimal(n / 10, 3) + [DigitChar(n % 10)];
  }

  lemma DecimalOfTwo(n: nat)
    requires n <= 99
    ensures Decimal(n, 2) == [DigitChar(n / 10), DigitChar(n % 10)]
  {
  }

  /** A number of five or more digits fills more than four characters. */
  lemma DecimalOfLarge(n: nat)
    requires 9999 < n
    ensures |Decimal(n, 4)| >= 5
  {
    assert n / 10 / 10 == n / 100 && n / 100 / 10 == n / 1000;
    assert Decimal(n, 4) == Decimal(n / 10, 3) + [DigitChar(n % 10)];
    assert Decimal(n / 10, 3) == Decimal(n / 100, 2) + [DigitChar(n / 10 % 10)];
    assert Decimal(n / 100, 2) == Decimal(n / 1000, 1) + [DigitChar(n / 100 % 10)];
    assert Decimal(n / 1000, 1) == Decimal(n / 10000, 0) + [DigitChar(n / 1000 % 10)];
  }

  /** The number a string of decimal digits stands for. */
  function DecimalValue(s: string): nat
    requires forall i :: 0 <= i < |s| ==> IsDigit(s[i])
    decreases |s|
  {
    if s == [] then 0 else 10 * DecimalValue(s[..|s| - 1]) + DigitValue(s[|s| - 1])
  }

  /** Reading back the digits of `n` gives `n`, whatever the padding. */
  lemma {:induction false} DecimalRoundTrip(n: nat, width: nat)
    ensures DecimalValue(Decimal(n, width)) == n
    decreases n, width
  {
    if !(n < 10 && width <= 1) {
      var w := if width == 0 then 0 else width - 1;
      var p := Decimal(n / 10, w);
      DecimalRoundTrip(n / 10, w);
      assert Decimal(n, width) == p + [DigitChar(n % 10)];
      assert (p + [DigitChar(n % 10)])[..|p|] == p;
    }
  }

  /** Go's layout element "2006": a year with at least four digits, '-' before a negative one. */
  function YearText(y: int): string
  {
    if y < 0 then "-" + Decimal(-y, 4) else Decimal(y, 4)
  }

  /** A year text has four characters exactly for the years 0000..9999, and more otherwise. */
  lemma YearTextLength(y: int)
    ensures |YearText(y)| >= 4
    ensures |YearText(y)| == 4 <==> 0 <= y <= 9999
  {
    if 9999 < y {
      DecimalOfLarge(y);
    } else if 0 <= y {
      DecimalOfFour(y);
    }
  }

  /** Different years have different texts: the sign shows in the first character, the digits give the rest. */
  lemma YearTextInjective(a: int, b: int)
    requires YearText(a) == YearText(b)
    ensures a == b
  {
    assert YearText(a)[0] == '-' <==> a < 0;
    assert YearText(b)[0] == '-' <==> b < 0;
    if a < 0 {
      assert Decimal(-a, 4) == YearText(a)[1..];
      assert Decimal(-b, 4) == YearText(b)[1..];
      DecimalRoundTrip(-a, 4);
      DecimalRoundTrip(-b, 4);
    } else {
      DecimalRoundTrip(a, 4);
      DecimalRoundTrip(b, 4);
    }
  }

  /**
   * `Format(time.DateOnly)`: the identity of a day.  It has the ten
   * characters of `YYYY-MM-DD` exactly when the year has four digits.
   */
  function Format(d: int): (s: string)
    ensures |s| >= 10
    ensures |s| == 10 <==> Representable(d)
  {
    var c := CivilFromDays(d);
    YearTextLength(c.year);
    RepresentableYears(d);
    DecimalOfTwo(c.month);
    DecimalOfTwo(c.day);
    YearText(c.year) + "-" + Decimal(c.month, 2) + "-" + Decimal(c.day, 2)
  }

  /** The shape "DDDD-DD-DD" that Go's parser of the layout accepts before range checks. */
  predicate Shaped(s: string)
  {
    |s| == 10 && IsDigit(s[0]) && IsDigit(s[1]) && IsDigit(s[2]) && IsDigit(s[3]) && s[4] == '-'
    && IsDigit(s[5]) && IsDigit(s[6]) && s[7] == '-' && IsDigit(s[8]) && IsDigit(s[9])
  }

  /** The year, month and day digits of a shaped string, read as numbers. */
  function Fields(s: string): Civil
    requires Shaped(s)
  {
    Civil(1000 * DigitValue(s[0]) + 100 * DigitValue(s[1]) + 10 * DigitValue(s[2]) + DigitValue(s[3]),
          10 * DigitValue(s[5]) + DigitValue(s[6]),
          10 * DigitValue(s[8]) + DigitValue(s[9]))
  }

  /** `time.Parse(time.DateOnly, s)`: `None` where Go returns an error.  Only days of four-digit years parse. */
  function Parse(s: string): (r: Option<int>)
    ensures r.Some? ==> Representable(r.value)
  {
    if Shaped(s) && ValidCivil(Fields(s)) then
      CivilRepresentable(Fields(s));
      Some(DaysFromCivil(Fields(s)))
    else None
  }

  /** A valid date of a year 0000..9999 has a representable day number. */
  lemma CivilRepresentable(c: Civil)
    requires ValidCivil(c) && 0 <= c.year <= 9999
    ensures Representable(DaysFromCivil(c))
  {
    CivilFromDaysOfCivil(c);
    RepresentableYears(DaysFromCivil(c));
  }

  lemma DigitsOfFour(n: int)
    requires 0 <= n <= 9999
    ensures 1000 * (n / 1000) + 100 * (n / 100 % 10) + 10 * (n / 10 % 10) + n % 10 == n
  {
    assert n / 10 / 10 == n / 100 && n / 100 / 10 == n / 1000 && n / 1000 < 10;
    assert n == 10 * (n / 10) + n % 10;
    assert n / 10 == 10 * (n / 100) + n / 10 % 10;
    assert n / 100 == 10 * (n / 1000) + n / 100 % 10;
  }

  /** The text of a date whose year has four digits, character by character. */
  lemma TextChars(c: Civil)
    requires 0 <= c.year <= 9999 && 0 <= c.month <= 99 && 0 <= c.day <= 99
    ensures YearText(c.year) + "-" + Decimal(c.month, 2) + "-" + Decimal(c.day, 2)
         == [DigitChar(c.year / 1000), DigitChar(c.year / 100 % 10), DigitChar(c.year / 10 % 10), DigitChar(c.year % 10),
             '-', DigitChar(c.month / 10), DigitChar(c.month % 10), '-', DigitChar(c.day / 10), DigitChar(c.day % 10)]
  {
    DecimalOfFour(c.year);
    DecimalOfTwo(c.month);
    DecimalOfTwo(c.day);
  }

  /** Four-digit year, two-digit month and day: the text is shaped and reads back the same fields. */
  lemma ShapedText(c: Civil)
    requires 0 <= c.year <= 9999 && 0 <= c.month <= 99 && 0 <= c.day <= 99
    ensures Shaped(YearText(c.year) + "-" + Decimal(c.month, 2) + "-" + Decimal(c.day, 2))
    ensures Fields(YearText(c.year) + "-" + Decimal(c.month, 2) + "-" + Decimal(c.day, 2)) == c
  {
    TextChars(c);
    DigitsOfFour(c.year);
  }

  lemma NumberOfFour(a: int, b: int, e: int, f: int)
    requires 0 <= a <= 9 && 0 <= b <= 9 && 0 <= e <= 9 && 0 <= f <= 9
    ensures var n := 1000 * a + 100 * b + 10 * e + f;
      n / 1000 == a && n / 100 % 10 == b && n / 10 % 10 == e && n % 10 == f
  {
    var n := 1000 * a + 100 * b + 10 * e + f;
    assert n / 10 == 100 * a + 10 * b + e;
    assert n / 100 == 10 * a + b;
  }

  lemma NumberOfTwo(a: int, b: int)
    requires 0 <= a <= 9 && 0 <= b <= 9
    ensures (10 * a + b) / 10 == a && (10 * a + b) % 10 == b
  {
  }

  /** A shaped string is the text of its own fields. */
  lemma TextOfFields(s: string)
    requires Shaped(s)
    ensures 0 <= Fields(s).year <= 9999 && 0 <= Fields(s).month <= 99 && 0 <= Fields(s).day <= 99
    ensures s == YearText(Fields(s).year) + "-" + Decimal(Fields(s).month, 2) + "-" + Decimal(Fields(s).day, 2)
  {
    var c := Fields(s);
    NumberOfFour(DigitValue(s[0]), DigitValue(s[1]), DigitValue(s[2]), DigitValue(s[3]));
    NumberOfTwo(DigitValue(s[5]), DigitValue(s[6]));
    NumberOfTwo(DigitValue(s[8]), DigitValue(s[9]));
    TextChars(c);
    assert s == [s[0], s[1], s[2], s[3], '-', s[5], s[6], '-', s[8], s[9]];
  }

  /** Parsing a formatted day gives it back exactly when its year has four digits. */
  lemma ParseFormat(d: int)
    ensures Parse(Format(d)) == if Representable(d) then Some(d) else None
  {
    var c := CivilFromDays(d);
    var s := Format(d);
    RepresentableYears(d);
    if c.year < 0 {
      assert s[0] == '-';
    } else if 9999 < c.year {
      DecimalOfLarge(c.year);
      assert s[4] == Decimal(c.year, 4)[4];
    } else {
      ShapedText(c);
    }
  }

  /** Every string that parses is the formatted form of the day it parses to. */
  lemma FormatParse(s: string)
    requires Parse(s).Some?
    ensures Format(Parse(s).value) == s
  {
    TextOfFields(s);
    CivilFromDaysOfCivil(Fields(s));
  }
  /** A text `Y-MM-DD` with a two-character month and day splits back into its parts. */
  lemma SplitDateText(y1: string, m1: string, d1: string, y2: string, m2: string, d2: string)
    requires |m1| == |d1| == |m2| == |d2| == 2
    requires y1 + "-" + m1 + "-" + d1 == y2 + "-" + m2 + "-" + d2
    ensures y1 == y2 && m1 == m2 && d1 == d2
  {
    var s := y1 + "-" + m1 + "-" + d1;
    var n := |s| - 6;
    assert s[..n] == y1 && s[n + 1..n + 3] == m1 && s[n + 4..] == d1;
    var s' := y2 + "-" + m2 + "-" + d2;
    assert s'[..n] == y2 && s'[n + 1..n + 3] == m2 && s'[n + 4..] == d2;
  }

  /** The text of a date gives the date back. */
  lemma CivilTextInjective(c1: Civil, c2: Civil)
    requires ValidCivil(c1) && ValidCivil(c2)
    requires YearText(c1.year) + "-" + Decimal(c1.month, 2) + "-" + Decimal(c1.day, 2)
          == YearText(c2.year) + "-" + Decimal(c2.month, 2) + "-" + Decimal(c2.day, 2)
    ensures c1 == c2
  {
    DecimalOfTwo(c1.month);
    DecimalOfTwo(c1.day);
    DecimalOfTwo(c2.month);
    DecimalOfTwo(c2.day);
    SplitDateText(YearText(c1.year), Decimal(c1.month, 2), Decimal(c1.day, 2), YearText(c2.year), Decimal(c2.month, 2), Decimal(c2.day, 2));
    YearTextInjective(c1.year, c2.year);
    DecimalRoundTrip(c1.month, 2);
    DecimalRoundTrip(c2.month, 2);
    DecimalRoundTrip(c1.day, 2);
    DecimalRoundTrip(c2.day, 2);
  }

  /** Two days have the same identity exactly when they are the same day. */
  lemma FormatInjective(a: int, b: int)
    ensures Format(a) == Format(b) <==> a == b
  {
    if Format(a) == Format(b) {
      CivilTextInjective(CivilFromDays(a), CivilFromDays(b));
    }
  }
}
