/** UTC calendar arithmetic behind `datetime.fromtimestamp(ms / 1000.0,
    tz=timezone.utc)` as the scraper uses it (the year of a point, the year
    and month of a row), done on integers: floor division of milliseconds
    into days since 1970-01-01, then the proleptic Gregorian calendar. Also
    the zero-padded `YYYY-MM` month keys and Python's ordering of strings,
    which sorts the month index. */
module Calendar {
  import opened JsonValues
  import opened IntParsing

  const MsPerDay: int := 86400000

  /** The UTC day, counted from 1970-01-01, holding the instant ms
      milliseconds after the epoch; instants before 1970 round down too. */
  function DayOf(ms: int): (z: int)
    ensures z * MsPerDay <= ms < z * MsPerDay + MsPerDay
  {
    ms / MsPerDay
  }

  predicate IsLeap(y: int)
  {
    y % 4 == 0 && (y % 100 != 0 || y % 400 == 0)
  }

  function DaysInYear(y: int): (n: int)
    ensures n == 365 || n == 366
  {
    if IsLeap(y) then 366 else 365
  }

  /** Days from 1970-01-01 to the first of January of year y; negative for
      the years before 1970. */
  function DaysBeforeYear(y: int): int
    decreases if y < 1970 then 1970 - y else y - 1970
  {
    if y == 1970 then 0
    else if y > 1970 then DaysBeforeYear(y - 1) + DaysInYear(y - 1)
    else DaysBeforeYear(y + 1) - DaysInYear(y)
  }

  lemma DaysBeforeNextYear(y: int)
    ensures DaysBeforeYear(y + 1) == DaysBeforeYear(y) + DaysInYear(y)
  {
  }

  /** A year's days all come before any later year starts. */
  lemma {:induction false} DaysBeforeYearMonotone(y: int, y': int)
    requires y < y'
    ensures DaysBeforeYear(y) + DaysInYear(y) <= DaysBeforeYear(y')
    decreases y' - y
  {
    DaysBeforeNextYear(y);
    if y + 1 < y' {
      DaysBeforeYearMonotone(y + 1, y');
    }
  }

  function DaysInMonth(y: int, m: int): (n: int)
    requires 1 <= m <= 12
    ensures 28 <= n <= 31
  {
    if m == 2 then (if IsLeap(y) then 29 else 28)
    else if m == 4 || m == 6 || m == 9 || m == 11 then 30
    else 31
  }

  /** Days from the first of January of year y to the first of month m;
      m == 13 stands for the next first of January. */
  function DaysBeforeMonth(y: int, m: int): (n: int)
    requires 1 <= m <= 13
    ensures m == 1 ==> n == 0
    ensures m == 13 ==> n == DaysInYear(y)
  {
    [0, 31, 59, 90, 120, 151, 181, 212, 243, 273, 304, 334, 365][m - 1]
      + (if m > 2 && IsLeap(y) then 1 else 0)
  }

  /** The month table agrees with the month lengths. */
  lemma DaysBeforeNextMonth(y: int, m: int)
    requires 1 <= m <= 12
    ensures DaysBeforeMonth(y, m + 1) == DaysBeforeMonth(y, m) + DaysInMonth(y, m)
  {
  }

  /** A month's days all come before any later month of its year starts. */
  lemma {:induction false} DaysBeforeMonthMonotone(y: int, m: int, m': int)
    requires 1 <= m < m' <= 13
    ensures DaysBeforeMonth(y, m) + DaysInMonth(y, m) <= DaysBeforeMonth(y, m')
    decreases m' - m
  {
    DaysBeforeNextMonth(y, m);
    if m + 1 < m' {
      DaysBeforeMonthMonotone(y, m + 1, m');
    }
  }

  /** A calendar date; `month` and `day` count from 1. */
  datatype Date = Date(year: int, month: int, day: int)

  predicate ValidDate(d: Date)
  {
    1 <= d.month <= 12 && 1 <= d.day <= DaysInMonth(d.year, d.month)
  }

  /** Days from 1970-01-01 to the date d. */
  function DaysFromCivil(d: Date): (z: int)
    requires ValidDate(d)
    ensures DaysBeforeYear(d.year) <= z < DaysBeforeYear(d.year) + DaysInYear(d.year)
  {
    DaysBeforeMonthMonotone(d.year, d.month, 13);
    DaysBeforeYear(d.year) + DaysBeforeMonth(d.year, d.month) + d.day - 1
  }

  /** From r days into year y, which may fall before or after it, to the
      year holding that day and the offset within it. */
  function YearWalk(y: int, r: int): (yr: (int, int))
    ensures 0 <= yr.1 < DaysInYear(yr.0)
    ensures DaysBeforeYear(yr.0) + yr.1 == DaysBeforeYear(y) + r
    decreases if r < 0 then 1 else 0, if r < 0 then -r else r
  {
    if r < 0 then
      DaysBeforeNextYear(y - 1);
      YearWalk(y - 1, r + DaysInYear(y - 1))
    else if r >= DaysInYear(y) then
      DaysBeforeNextYear(y);
      YearWalk(y + 1, r - DaysInYear(y))
    else
      (y, r)
  }

  /** From month m onwards, the month of year y holding day r of the year. */
  function MonthWalk(y: int, m: int, r: int): (m': int)
    requires 1 <= m <= 12 && DaysBeforeMonth(y, m) <= r < DaysInYear(y)
    ensures m <= m' <= 12
    ensures DaysBeforeMonth(y, m') <= r < DaysBeforeMonth(y, m') + DaysInMonth(y, m')
    decreases 12 - m
  {
    DaysBeforeNextMonth(y, m);
    if r < DaysBeforeMonth(y, m) + DaysInMonth(y, m) then m else MonthWalk(y, m + 1, r)
  }

  /** The date of the z-th day after 1970-01-01 (before it when z < 0). */
  function CivilFromDays(z: int): (d: Date)
    ensures ValidDate(d) && DaysFromCivil(d) == z
  {
    var yr := YearWalk(1970, z);
    var m := MonthWalk(yr.0, 1, yr.1);
    Date(yr.0, m, yr.1 - DaysBeforeMonth(yr.0, m) + 1)
  }

  /** Distinct dates are distinct days. */
  lemma DaysFromCivilInjective(a: Date, b: Date)
    requires ValidDate(a) && ValidDate(b) && DaysFromCivil(a) == DaysFromCivil(b)
    ensures a == b
  {
    if a.year < b.year {
      DaysBeforeYearMonotone(a.year, b.year);
    } else if b.year < a.year {
      DaysBeforeYearMonotone(b.year, a.year);
    } else if a.month < b.month {
      DaysBeforeMonthMonotone(a.year, a.month, b.month);
    } else if b.month < a.month {
      DaysBeforeMonthMonotone(a.year, b.month, a.month);
    }
  }

  /** Every date is the date of its own day number: with the ensures of
      CivilFromDays, days and valid dates are in one-to-one correspondence. */
  lemma CivilFromDaysFromCivil(d: Date)
    requires ValidDate(d)
    ensures CivilFromDays(DaysFromCivil(d)) == d
  {
    DaysFromCivilInjective(CivilFromDays(DaysFromCivil(d)), d);
  }

  /** Later days never fall in earlier years. */
  lemma YearOfDayMonotone(z: int, z': int)
    requires z <= z'
    ensures CivilFromDays(z).year <= CivilFromDays(z').year
  {
    var y, y' := CivilFromDays(z).year, CivilFromDays(z').year;
    if y' < y {
      DaysBeforeYearMonotone(y', y);
    }
  }

  /** `datetime.fromtimestamp(ms / 1000.0, tz=timezone.utc)`, as a date. */
  function DateOfMs(ms: int): (d: Date)
    ensures ValidDate(d)
  {
    CivilFromDays(DayOf(ms))
  }

  function YearOfMs(ms: int): int
  {
    DateOfMs(ms).year
  }

  /** Python's datetime holds the years 1 to 9999 only: outside them
      `fromtimestamp` raises instead of returning. */
  predicate InDatetimeRange(ms: int)
  {
    1 <= YearOfMs(ms) <= 9999
  }

  /** Later instants never fall in earlier years. */
  lemma YearOfMsMonotone(ms: int, ms': int)
    requires ms <= ms'
    ensures YearOfMs(ms) <= YearOfMs(ms')
  {
    assert DayOf(ms) <= DayOf(ms');
    YearOfDayMonotone(DayOf(ms), DayOf(ms'));
  }

  /** The first instant of year y, in milliseconds after the epoch. */
  function NewYearMs(y: int): int
  {
    DaysBeforeYear(y) * MsPerDay
  }

  /** An instant falls in year y or a later one exactly when it is not
      before the first instant of y: a cutoff year is a cutoff timestamp. */
  lemma YearFromNewYear(ms: int, y: int)
    ensures YearOfMs(ms) >= y <==> ms >= NewYearMs(y)
  {
    var z := DayOf(ms);
    var year := CivilFromDays(z).year;
    if year >= y {
      if year > y {
        DaysBeforeYearMonotone(y, year);
      }
      assert DaysBeforeYear(y) <= z;
    } else {
      DaysBeforeYearMonotone(year, y);
      assert z + 1 <= DaysBeforeYear(y);
    }
  }

  /** Instants of one UTC day share its date: the bucket of a row depends
      on the day alone. */
  lemma DateOfMsDay(ms: int, z: int)
    requires z * MsPerDay <= ms < z * MsPerDay + MsPerDay
    ensures DateOfMs(ms) == CivilFromDays(z)
  {
    assert DayOf(ms) == z;
  }

  function Pow10(w: nat): (p: nat)
    ensures p >= 1
  {
    if w == 0 then 1 else 10 * Pow10(w - 1)
  }

  /** `f"{n:0{w}d}"` for 0 <= n < 10^w: n written in exactly w digits,
      zero-padded on the left. */
  function Pad(n: nat, w: nat): (r: string)
    requires n < Pow10(w)
    ensures |r| == w && AllDigits(r)
  {
    if w == 0 then [] else Pad(n / 10, w - 1) + [DigitChar(n % 10)]
  }

  /** The padded digits read back as n. */
  lemma {:induction false} PadValue(n: nat, w: nat)
    requires n < Pow10(w)
    ensures DecimalValue(Pad(n, w)) == n
    decreases w
  {
    if w > 0 {
      var p := Pad(n, w);
      assert p[..|p| - 1] == Pad(n / 10, w - 1);
      PadValue(n / 10, w - 1);
    }
  }

  /** Python's `a < b` on str: the first differing code point decides, and
      a proper prefix comes first. */
  predicate LexLess(a: string, b: string)
    decreases |a|
  {
    b != [] && (a == [] || a[0] < b[0] || (a[0] == b[0] && LexLess(a[1..], b[1..])))
  }

  lemma {:induction false} LexLessIrreflexive(a: string)
    ensures !LexLess(a, a)
    decreases |a|
  {
    if a != [] {
      LexLessIrreflexive(a[1..]);
    }
  }

  /** A common prefix does not change the order. */
  lemma {:induction false} LexLessCommonPrefix(p: string, a: string, b: string)
    ensures LexLess(p + a, p + b) <==> LexLess(a, b)
    decreases |p|
  {
    if p == [] {
      assert p + a == a && p + b == b;
    } else {
      assert (p + a)[0] == (p + b)[0];
      assert (p + a)[1..] == p[1..] + a;
      assert (p + b)[1..] == p[1..] + b;
      LexLessCommonPrefix(p[1..], a, b);
    }
  }

  /** Between strings of one length, what follows them does not change the
      order. */
  lemma {:induction false} LexLessSameLength(a: string, b: string, c: string, d: string)
    requires |a| == |b| && LexLess(a, b)
    ensures LexLess(a + c, b + d)
    decreases |a|
  {
    assert (a + c)[0] == a[0] && (b + d)[0] == b[0];
    if a[0] == b[0] {
      assert (a + c)[1..] == a[1..] + c;
      assert (b + d)[1..] == b[1..] + d;
      LexLessSameLength(a[1..], b[1..], c, d);
    }
  }

  /** Zero-padded numbers of one width sort as strings in numeric order. */
  lemma {:induction false} PadOrder(n: nat, n': nat, w: nat)
    requires n < n' < Pow10(w)
    ensures LexLess(Pad(n, w), Pad(n', w))
    decreases w
  {
    var c, c' := DigitChar(n % 10), DigitChar(n' % 10);
    if n / 10 < n' / 10 {
      PadOrder(n / 10, n' / 10, w - 1);
      LexLessSameLength(Pad(n / 10, w - 1), Pad(n' / 10, w - 1), [c], [c']);
    } else {
      assert c < c';
      assert LexLess([c], [c']);
      LexLessCommonPrefix(Pad(n / 10, w - 1), [c], [c']);
    }
  }

  /** `f"{year:04d}-{month:02d}"`, the name of a monthly archive. */
  function MonthKey(year: int, month: int): (k: string)
    requires 1 <= year <= 9999 && 1 <= month <= 12
    ensures |k| == 7 && k[4] == '-'
  {
    Pad(year, 4) + ("-" + Pad(month, 2))
  }

  /** The key gives back its year and its month. */
  lemma MonthKeyRoundTrip(year: int, month: int)
    requires 1 <= year <= 9999 && 1 <= month <= 12
    ensures IntOfString(MonthKey(year, month)[..4]) == Some(year)
    ensures IntOfString(MonthKey(year, month)[5..]) == Some(month)
  {
    var k := MonthKey(year, month);
    assert k[..4] == Pad(year, 4);
    assert k[5..] == Pad(month, 2);
    PadValue(year, 4);
    PadValue(month, 2);
    IntOfDigits(Pad(year, 4));
    IntOfDigits(Pad(month, 2));
  }

  /** Month keys sort as strings in calendar order. */
  lemma MonthKeyOrder(year: int, month: int, year': int, month': int)
    requires 1 <= year <= 9999 && 1 <= month <= 12
    requires 1 <= year' <= 9999 && 1 <= month' <= 12
    requires year < year' || (year == year' && month < month')
    ensures LexLess(MonthKey(year, month), MonthKey(year', month'))
  {
    if year < year' {
      PadOrder(year, year', 4);
      LexLessSameLength(Pad(year, 4), Pad(year', 4), "-" + Pad(month, 2), "-" + Pad(month', 2));
    } else {
      PadOrder(month, month', 2);
      LexLessCommonPrefix("-", Pad(month, 2), Pad(month', 2));
      LexLessCommonPrefix(Pad(year, 4), "-" + Pad(month, 2), "-" + Pad(month', 2));
    }
  }
}
