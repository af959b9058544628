/** From a count of days since 1970-01-01 to the Gregorian date, without a calendar library. */
module Calendar {
  import opened Words

  type i64 = x: int | -0x8000_0000_0000_0000 <= x < 0x8000_0000_0000_0000

  datatype Date = Date(year: int, month: int, day: int)

  // ----- The calendar itself -----

  predicate IsLeap(year: int) {
    year % 4 == 0 && (year % 100 != 0 || year % 400 == 0)
  }

  function LeapDay(year: int): nat {
    if IsLeap(year) then 1 else 0
  }

  function DaysInMonth(year: int, month: int): nat
    requires 1 <= month <= 12
  {
    if month == 2 then 28 + LeapDay(year)
    else if month == 4 || month == 6 || month == 9 || month == 11 then 30
    else 31
  }

  predicate IsDate(x: Date) {
    1 <= x.month <= 12 && 1 <= x.day <= DaysInMonth(x.year, x.month)
  }

  function NextDay(x: Date): Date
    requires IsDate(x)
  {
    if x.day < DaysInMonth(x.year, x.month) then x.(day := x.day + 1)
    else if x.month < 12 then Date(x.year, x.month + 1, 1)
    else Date(x.year + 1, 1, 1)
  }

  /** The days of all months before `month`. */
  function DaysBeforeMonth(year: int, month: int): nat
    requires 1 <= month <= 13
  {
    if month == 1 then 0 else DaysBeforeMonth(year, month - 1) + DaysInMonth(year, month - 1)
  }

  /** The days of all years from 1970 up to `year`, negative before 1970. */
  function DaysBeforeYear(year: int): int
    decreases if year >= 1970 then year - 1970 else 1970 - year
  {
    if year == 1970 then 0
    else if year > 1970 then DaysBeforeYear(year - 1) + 365 + LeapDay(year - 1)
    else DaysBeforeYear(year + 1) - 365 - LeapDay(year)
  }

  function DaysFromDate(x: Date): int
    requires IsDate(x)
  {
    DaysBeforeYear(x.year) + DaysBeforeMonth(x.year, x.month) + x.day - 1
  }

  // ----- The conversion -----

  /** Division that rounds toward zero. */
  function TruncatedDiv(a: int, b: int): int
    requires b > 0
  {
    if a >= 0 then a / b else -(-a / b)
  }

  /** The day counts whose shift to an era that starts in March stays a 64-bit number. */
  predicate InRange(z: int) {
    -0x8000_0000_0000_0000 <= z < 0x8000_0000_0000_0000 - 719468
  }

  function Era(z: int): int {
    TruncatedDiv(if z >= 0 then z else z - 146096, 146097)
  }

  function YearOfEra(doe: nat): int {
    (doe - doe / 1460 + doe / 36524 - doe / 146096) / 365
  }

  function StartOfYear(yoe: int): int {
    365 * yoe + yoe / 4 - yoe / 100
  }

  function MonthIndex(doy: int): int {
    (5 * doy + 2) / 153
  }

  function StartOfMonth(mp: int): int {
    (153 * mp + 2) / 5
  }

  /** Every intermediate value fits the width the program gives it. */
  function CivilFromDays(days: i64): Date
    requires InRange(days)
  {
    var z: i64 := days + 719468;
    EraIsFloor(z);
    var era: i64 := Era(z);
    var doe: u64 := z - era * 146097;
    YearOfEraIsRight(doe);
    var yoe: u64 := YearOfEra(doe);
    var y: i64 := yoe + era * 400;
    var doy: u64 := doe - StartOfYear(yoe);
    var mp: u64 := MonthIndex(doy);
    MonthIsRight(doy);
    var d: u32 := doy - StartOfMonth(mp) + 1;
    var m: u32 := if mp < 10 then mp + 3 else mp - 9;
    Date(if m <= 2 then y + 1 else y, m, d)
  }

  lemma {:induction false} EraIsFloor(z: int)
    ensures 0 <= z - Era(z) * 146097 < 146097
  {
  }

  /** A day of an era as centuries, four-year groups, years and days, counted from a first of March. */
  ghost predicate Splits(doe: int, c: int, q: int, t: int, u: int) {
    && doe == 36524 * c + 1461 * q + 365 * t + u
    && 0 <= c <= 3 && 0 <= q <= 24 && 0 <= t <= 3 && 0 <= u
    && u <= (if t == 3 && (q < 24 || c == 3) then 365 else 364)
  }

  lemma {:induction false} SplitEra(doe: nat) returns (c: int, q: int, t: int, u: int)
    requires doe < 146097
    ensures Splits(doe, c, q, t, u)
  {
    c := if doe / 36524 > 3 then 3 else doe / 36524;
    var r := doe - 36524 * c;
    q := r / 1461;
    var s := r - 1461 * q;
    t := if s / 365 > 3 then 3 else s / 365;
    u := s - 365 * t;
  }

  lemma {:induction false} YearOfSplit(doe: nat, c: int, q: int, t: int, u: int)
    requires Splits(doe, c, q, t, u)
    ensures YearOfEra(doe) == 100 * c + 4 * q + t
    ensures StartOfYear(100 * c + 4 * q + t) == doe - u
  {
    var k := if 24 * c + q + 365 * t + u >= 1460 then 1 else 0;
    LeapsOfSplit(0, c, q, t);
    CenturyOfSplit(doe, c, q, t, u);
    assert doe == 1460 * (25 * c + q + k) + (24 * c + q + 365 * t + u - 1460 * k);
    assert doe / 1460 == 25 * c + q + k;
    assert doe - doe / 1460 + c == 365 * (100 * c + 4 * q + t) + (u - k);
    assert 0 <= u - k < 365;
  }

  lemma {:induction false} CenturyOfSplit(doe: nat, c: int, q: int, t: int, u: int)
    requires Splits(doe, c, q, t, u)
    ensures doe / 36524 - doe / 146096 == c
  {
    var r := 1461 * q + 365 * t + u;
    assert r <= 36523 || (c == 3 && r == 36524);
    if r == 36524 {
      assert doe == 146096;
    } else {
      assert doe == 36524 * c + r < 146096;
    }
  }

  lemma {:induction false} YearOfEraIsRight(doe: nat)
    requires doe < 146097
    ensures 0 <= YearOfEra(doe) < 400
    ensures 0 <= doe - StartOfYear(YearOfEra(doe)) <= 365
  {
    var c, q, t, u := SplitEra(doe);
    YearOfSplit(doe, c, q, t, u);
  }

  /** The days from March up to the month with index `mp`, in a year that starts in March. */
  function MarchDays(mp: int): int
    requires 0 <= mp <= 11
  {
    [0, 31, 61, 92, 122, 153, 184, 214, 245, 275, 306, 337][mp]
  }

  lemma {:induction false} MonthIsRight(doy: int)
    requires 0 <= doy <= 365
    ensures 0 <= MonthIndex(doy) <= 11
    ensures StartOfMonth(MonthIndex(doy)) == MarchDays(MonthIndex(doy)) <= doy
    ensures MonthIndex(doy) < 11 ==> doy < MarchDays(MonthIndex(doy) + 1)
  {
  }

  // ----- The conversion against the calendar -----

  lemma {:induction false} YearsClosedForm(year: int)
    ensures DaysBeforeYear(year) ==
            365 * (year - 1970) + (year - 1) / 4 - (year - 1) / 100 + (year - 1) / 400 - 477
    decreases if year >= 1970 then year - 1970 else 1970 - year
  {
    if year > 1970 {
      YearsClosedForm(year - 1);
      LeapStep(year - 1);
    } else if year < 1970 {
      YearsClosedForm(year + 1);
      LeapStep(year);
    }
  }

  lemma {:induction false} LeapStep(y: int)
    ensures y / 4 - y / 100 + y / 400 == (y - 1) / 4 - (y - 1) / 100 + (y - 1) / 400 + LeapDay(y)
  {
    QuotientStep(y, 4);
    QuotientStep(y, 100);
    QuotientStep(y, 400);
    Divisors(y);
  }

  lemma {:induction false} QuotientStep(y: int, n: int)
    requires n == 4 || n == 100 || n == 400
    ensures y / n == (y - 1) / n + if y % n == 0 then 1 else 0
  {
    if n == 4 {
      assert y / 4 == (y - 1) / 4 + if y % 4 == 0 then 1 else 0;
    } else if n == 100 {
      assert y / 100 == (y - 1) / 100 + if y % 100 == 0 then 1 else 0;
    } else {
      assert y / 400 == (y - 1) / 400 + if y % 400 == 0 then 1 else 0;
    }
  }

  lemma {:induction false} Divisors(y: int)
    ensures y % 100 == 0 ==> y % 4 == 0
    ensures y % 400 == 0 ==> y % 100 == 0
  {
    if y % 100 == 0 {
      FactorDivides(4, 25, y / 100);
    }
    if y % 400 == 0 {
      FactorDivides(100, 4, y / 400);
    }
  }

  lemma {:induction false} FactorDivides(n: int, k: int, m: int)
    requires (n == 4 && k == 25) || (n == 100 && k == 4)
    ensures (n * k * m) % n == 0
  {
    if n == 4 {
      assert (4 * (25 * m)) / 4 == 25 * m;
    } else {
      assert (100 * (4 * m)) / 100 == 4 * m;
    }
  }

  /** The leap days in the years before the March year that starts an era, a century and a group later. */
  lemma {:induction false} LeapsOfSplit(era: int, c: int, q: int, t: int)
    requires 0 <= c <= 3 && 0 <= q <= 24 && 0 <= t <= 3
    ensures var y := 400 * era + 100 * c + 4 * q + t;
            y / 4 == 100 * era + 25 * c + q && y / 100 == 4 * era + c && y / 400 == era
  {
    var y := 400 * era + 100 * c + 4 * q + t;
    assert y == 4 * (100 * era + 25 * c + q) + t;
    assert y == 100 * (4 * era + c) + (4 * q + t);
    assert y == 400 * era + (100 * c + 4 * q + t);
  }

  /** The year that follows is leap exactly when this March year has a 366th day. */
  lemma {:induction false} LeapOfSplit(era: int, c: int, q: int, t: int)
    requires 0 <= c <= 3 && 0 <= q <= 24 && 0 <= t <= 3
    ensures IsLeap(400 * era + 100 * c + 4 * q + t + 1) <==> t == 3 && (q < 24 || c == 3)
  {
    var y := 400 * era + 100 * c + 4 * q + t + 1;
    LeapsOfSplit(era, c, q, t);
    if t < 3 {
      LeapsOfSplit(era, c, q, t + 1);
    } else if q < 24 {
      LeapsOfSplit(era, c, q + 1, 0);
    } else if c < 3 {
      LeapsOfSplit(era, c + 1, 0, 0);
    } else {
      LeapsOfSplit(era + 1, 0, 0, 0);
    }
  }

  /** The first of March that opens the given year, as a day count. */
  lemma {:induction false} MarchFirst(era: int, c: int, q: int, t: int)
    requires 0 <= c <= 3 && 0 <= q <= 24 && 0 <= t <= 3
    ensures DaysBeforeYear(400 * era + 100 * c + 4 * q + t + 1) - 306 ==
            146097 * era + 36524 * c + 1461 * q + 365 * t - 719468
  {
    LeapsOfSplit(era, c, q, t);
    YearsClosedForm(400 * era + 100 * c + 4 * q + t + 1);
  }

  lemma {:induction false} MonthsFromMarch(year: int, mp: int)
    requires 0 <= mp <= 11
    ensures mp < 10 ==> DaysBeforeMonth(year, mp + 3) == 59 + LeapDay(year) + MarchDays(mp)
    ensures mp >= 10 ==> DaysBeforeMonth(year, mp - 9) == MarchDays(mp) - 306
    ensures mp < 11 ==> DaysInMonth(year, if mp < 10 then mp + 3 else mp - 9) == MarchDays(mp + 1) - MarchDays(mp)
  {
    if 0 < mp && mp != 10 {
      MonthsFromMarch(year, mp - 1);
    } else if mp == 0 {
      assert DaysBeforeMonth(year, 2) == 31;
    }
  }

  lemma {:induction false} YearStep(year: int)
    ensures DaysBeforeYear(year + 1) == DaysBeforeYear(year) + 365 + LeapDay(year)
  {
  }

  /** The date is a real one, and counting its days gives back the count it came from. */
  lemma {:induction false} CountsBack(days: i64)
    requires InRange(days)
    ensures IsDate(CivilFromDays(days)) && DaysFromDate(CivilFromDays(days)) == days
  {
    hide DaysBeforeYear, DaysBeforeMonth, Era, YearOfEra, StartOfYear, MonthIndex, StartOfMonth, MarchDays, IsLeap;
    var z := days + 719468;
    EraIsFloor(z);
    var era := Era(z);
    var doe := z - era * 146097;
    var c, q, t, u := SplitEra(doe);
    YearOfSplit(doe, c, q, t, u);
    MonthIsRight(u);
    var mp := MonthIndex(u);
    var y := 400 * era + 100 * c + 4 * q + t;
    MarchFirst(era, c, q, t);
    LeapOfSplit(era, c, q, t);
    YearStep(y);
    if mp < 10 {
      MonthsFromMarch(y, mp);
    } else {
      MonthsFromMarch(y + 1, mp);
      LastMarchMonth();
    }
  }

  lemma {:induction false} LastMarchMonth()
    ensures MarchDays(11) == 337
  {
  }

  // ----- Distinct dates have distinct counts -----

  lemma {:induction false} MonthFits(year: int, month: int)
    requires 1 <= month <= 12
    ensures DaysBeforeMonth(year, month) + DaysInMonth(year, month) <= 365 + LeapDay(year)
    decreases 12 - month
  {
    if month < 12 {
      MonthFits(year, month + 1);
    } else {
      MonthsFromMarch(year, 9);
    }
  }

  lemma {:induction false} YearsIncrease(a: int, b: int)
    requires a < b
    ensures DaysBeforeYear(a) + 365 + LeapDay(a) <= DaysBeforeYear(b)
    decreases b - a
  {
    hide DaysBeforeYear, LeapDay;
    YearStep(b - 1);
    if a < b - 1 {
      YearsIncrease(a, b - 1);
    }
  }

  lemma {:induction false} MonthsIncrease(year: int, a: int, b: int)
    requires 1 <= a < b <= 12
    ensures DaysBeforeMonth(year, a) + DaysInMonth(year, a) <= DaysBeforeMonth(year, b)
    decreases b - a
  {
    if a < b - 1 {
      MonthsIncrease(year, a, b - 1);
    }
  }

  predicate Before(a: Date, b: Date) {
    a.year < b.year || (a.year == b.year && (a.month < b.month || (a.month == b.month && a.day < b.day)))
  }

  /** The count of days orders dates as the calendar does. */
  lemma {:induction false} CountIsMonotone(a: Date, b: Date)
    requires IsDate(a) && IsDate(b) && Before(a, b)
    ensures DaysFromDate(a) < DaysFromDate(b)
  {
    hide DaysBeforeYear, DaysBeforeMonth, DaysInMonth, LeapDay;
    if a.year < b.year {
      YearsIncrease(a.year, b.year);
      MonthFits(a.year, a.month);
    } else if a.month < b.month {
      MonthsIncrease(a.year, a.month, b.month);
    }
  }

  /** The conversion is the inverse of counting the days of a date. */
  lemma {:induction false} CivilInvertsCount(x: Date)
    requires IsDate(x) && InRange(DaysFromDate(x))
    ensures CivilFromDays(DaysFromDate(x)) == x
  {
    hide DaysFromDate, CivilFromDays;
    var r := CivilFromDays(DaysFromDate(x));
    CountsBack(DaysFromDate(x));
    if Before(r, x) {
      CountIsMonotone(r, x);
    } else if Before(x, r) {
      CountIsMonotone(x, r);
    }
  }

  lemma {:induction false} CountStep(x: Date)
    requires IsDate(x)
    ensures IsDate(NextDay(x)) && DaysFromDate(NextDay(x)) == DaysFromDate(x) + 1
  {
    hide DaysBeforeYear;
    YearStep(x.year);
    if x.month == 12 {
      MonthsFromMarch(x.year, 9);
    }
  }

  lemma {:induction false} DayZero()
    ensures CivilFromDays(0) == Date(1970, 1, 1)
  {
    hide CivilFromDays;
    var first := Date(1970, 1, 1);
    assert IsDate(first) && DaysFromDate(first) == 0;
    CivilInvertsCount(first);
  }

  /** Consecutive counts give consecutive dates, starting from the first of January 1970. */
  lemma {:induction false} ConsecutiveDays(days: i64)
    requires InRange(days) && InRange(days + 1)
    ensures CivilFromDays(0) == Date(1970, 1, 1)
    ensures IsDate(CivilFromDays(days)) && CivilFromDays(days + 1) == NextDay(CivilFromDays(days))
  {
    DayZero();
    hide CivilFromDays, DaysFromDate, NextDay, IsDate;
    CountsBack(days);
    CountStep(CivilFromDays(days));
    CivilInvertsCount(NextDay(CivilFromDays(days)));
  }
}
