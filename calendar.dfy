/** Proleptic Gregorian calendar arithmetic on day numbers.

    The dashboard works on JavaScript Date values, but only ever reads their
    local calendar date (getFullYear, getMonth, getDate, getDay). A date is
    modelled here as a day number: 0 is 1970-01-01 and each step is one day.
    FromCivil plays the role of the Date constructor's day arithmetic (an
    overflowing month or day rolls into the next month or year), ToCivil the
    role of the getters. Time of day and time zones are not modelled.

    Internally the conversion counts "shifted years" that begin on March 1, so
    that the leap day is the last day of its year, and 400-year eras of
    146097 days. */
module Calendar {

  /** A date as its getters report it: full year, month 0..11, day of month. */
  datatype Civil = Civil(year: int, month: int, day: int)

  /** A calendar day, counted from 1970-01-01. */
  type Day = int

  const DaysPerEra := 146097
  /** 1970-01-01 is this many days after 0000-03-01. */
  const EpochShift := 719468

  predicate IsLeapYear(y: int) {
    y % 4 == 0 && (y % 100 != 0 || y % 400 == 0)
  }

  /** Length of month m (0 = January) of year y, by the Gregorian rule. */
  function MonthLength(y: int, m: int): (n: int)
    requires 0 <= m < 12
    ensures 28 <= n <= 31
    ensures m == 1 ==> (n == 29 <==> IsLeapYear(y))
  {
    if m == 1 then (if IsLeapYear(y) then 29 else 28)
    else if m == 3 || m == 5 || m == 8 || m == 10 then 30
    else 31
  }

  predicate ValidCivil(c: Civil) {
    0 <= c.month < 12 && 1 <= c.day <= MonthLength(c.year, c.month)
  }

  /** Day of the week, 0 = Sunday .. 6 = Saturday; 1970-01-01 was a Thursday. */
  function Weekday(d: Day): (w: int)
    ensures 0 <= w < 7
  {
    (d + 4) % 7
  }

  /** Year of a (year, month) pair once the month is brought into 0..11. */
  function NormYear(y: int, m: int): int { y + m / 12 }

  /** Month of a (year, month) pair brought into 0..11. */
  function NormMonth(m: int): (r: int)
    ensures 0 <= r < 12
  {
    m % 12
  }

  /** First day of shifted year yoe of an era, counted from the era's start. */
  function YearStartInEra(yoe: int): int {
    365 * yoe + yoe / 4 - yoe / 100 + yoe / 400
  }

  /** First day of shifted month mp (0 = March .. 11 = February) in its year. */
  function MonthStartInYear(mp: int): int {
    (153 * mp + 2) / 5
  }

  /** First day of the shifted year that begins on March 1 of year y, counted from 0000-03-01. */
  function ShiftedYearStart(y: int): int {
    (y / 400) * DaysPerEra + YearStartInEra(y % 400)
  }

  /** Shifted month (0 = March) of calendar month m (0 = January). */
  function ShiftedMonth(m: int): int {
    if m < 2 then m + 10 else m - 2
  }

  /** Calendar month (0 = January) of shifted month mp (0 = March). */
  function CalendarMonth(mp: int): int {
    if mp < 10 then mp + 2 else mp - 10
  }

  /** Day number of day d of month m of year y. Month and day may lie outside
      their ranges: they carry into the year and month as the Date
      constructor and setDate do. */
  function FromCivil(y: int, m: int, d: int): Day {
    var ny := NormYear(y, m);
    var nm := NormMonth(m);
    FromShifted(if nm < 2 then ny - 1 else ny, ShiftedMonth(nm), d)
  }

  /** Day number of day d of shifted month mp of the shifted year that begins in year sy. */
  function FromShifted(sy: int, mp: int, d: int): Day {
    ShiftedYearStart(sy) + MonthStartInYear(mp) + d - 1 - EpochShift
  }

  /** Shifted year of an era that holds day doe of the era. */
  function YearOfEra(doe: int): (yoe: int)
    requires 0 <= doe < DaysPerEra
    ensures 0 <= yoe < 400
    ensures YearStartInEra(yoe) <= doe < YearStartInEra(yoe + 1)
  {
    var c := if doe / 36524 < 3 then doe / 36524 else 3;
    var doc := doe - 36524 * c;
    var q := doc / 1461;
    var doq := doc - 1461 * q;
    var r := if doq / 365 < 3 then doq / 365 else 3;
    YearStartOfParts(c, q, r);
    YearStartOfParts(c, q, r + 1);
    assert r == 3 && q == 24 && c < 3 ==> doq < 1460;
    100 * c + 4 * q + r
  }

  lemma YearStartOfParts(c: int, q: int, r: int)
    requires 0 <= c < 4 && 0 <= q < 25 && 0 <= r <= 4
    ensures r < 4 ==> YearStartInEra(100 * c + 4 * q + r) == 36524 * c + 1461 * q + 365 * r
    ensures r == 4 && !(q == 24 && c < 3) ==> YearStartInEra(100 * c + 4 * q + r) == 36524 * c + 1461 * q + 1461
    ensures r == 4 && q == 24 && c < 3 ==> YearStartInEra(100 * c + 4 * q + r) == 36524 * c + 1461 * q + 1460
  {
    var y := 100 * c + 4 * q + r;
    assert y / 400 == if y == 400 then 1 else 0;
    if r < 4 {
      assert y / 4 == 25 * c + q;
      assert y / 100 == c;
    } else if q == 24 {
      assert y == 100 * (c + 1);
      assert y / 4 == 25 * c + 25;
      assert y / 100 == c + 1;
    } else {
      assert y / 4 == 25 * c + q + 1;
      assert y / 100 == c;
    }
  }

  /** Shifted month of a day of a shifted year. */
  function MonthOfYear(doy: int): (mp: int)
    requires 0 <= doy < 366
    ensures 0 <= mp < 12
    ensures MonthStartInYear(mp) <= doy < MonthStartInYear(mp + 1)
  {
    var mp := (5 * doy + 2) / 153;
    assert 153 * mp <= 5 * doy + 2 < 153 * mp + 153;
    assert 153 * mp + 2 <= 5 * doy + 4;
    assert 5 * doy + 5 <= 153 * (mp + 1) + 2;
    mp
  }

  /** The calendar date of a day number, as getFullYear/getMonth/getDate report it. */
  function ToCivil(n: Day): (c: Civil)
    ensures 0 <= c.month < 12 && 1 <= c.day
  {
    var z := n + EpochShift;
    CivilOfEraDay(z / DaysPerEra, z % DaysPerEra)
  }

  /** The calendar date of day doe of 400-year era number era. */
  function CivilOfEraDay(era: int, doe: int): (c: Civil)
    requires 0 <= doe < DaysPerEra
    ensures 0 <= c.month < 12 && 1 <= c.day
  {
    var yoe := YearOfEra(doe);
    var doy := doe - YearStartInEra(yoe);
    DayOfYearBound(yoe, doe);
    var mp := MonthOfYear(doy);
    var m := CalendarMonth(mp);
    Civil(era * 400 + yoe + (if m < 2 then 1 else 0), m, doy - MonthStartInYear(mp) + 1)
  }

  /** A day of shifted year yoe is at most the 366th of it. */
  lemma DayOfYearBound(yoe: int, doe: int)
    requires 0 <= yoe < 400 && YearStartInEra(yoe) <= doe < YearStartInEra(yoe + 1)
    ensures 0 <= doe - YearStartInEra(yoe) < 366
  {
    ShiftedYearLength(yoe);
  }

  /** A shifted year has 366 days exactly when the February it ends with is a leap February. */
  lemma ShiftedYearLength(y: int)
    ensures YearStartInEra(y + 1) - YearStartInEra(y) == if IsLeapYear(y + 1) then 366 else 365
  {
    QuotientStep(y, 4);
    QuotientStep(y, 100);
    QuotientStep(y, 400);
    assert (y + 1) % 400 == 0 ==> (y + 1) % 100 == 0 && (y + 1) % 4 == 0;
    assert (y + 1) % 100 == 0 ==> (y + 1) % 4 == 0;
  }

  /** Going from y to y + 1 raises y / k by one exactly when k divides y + 1. */
  lemma QuotientStep(y: int, k: int)
    requires k == 4 || k == 100 || k == 400
    ensures (y + 1) / k - y / k == if (y + 1) % k == 0 then 1 else 0
  {
    if k == 4 {
      assert (y + 1) / 4 - y / 4 == if (y + 1) % 4 == 0 then 1 else 0;
    } else if k == 100 {
      assert (y + 1) / 100 - y / 100 == if (y + 1) % 100 == 0 then 1 else 0;
    }
  }

  /** The leap-year rule repeats every 400 years. */
  lemma LeapPeriodic(e: int, x: int)
    ensures IsLeapYear(400 * e + x) == IsLeapYear(x)
  {
    ModPeriodic4(e, x);
    ModPeriodic100(e, x);
  }

  lemma ModPeriodic4(e: int, x: int)
    ensures (400 * e + x) % 4 == x % 4
  {
    assert 400 * e + x == 4 * (100 * e + x / 4) + x % 4;
  }

  lemma ModPeriodic100(e: int, x: int)
    ensures (400 * e + x) % 100 == x % 100
  {
    assert 400 * e + x == 100 * (4 * e + x / 100) + x % 100;
  }

  lemma ShiftedYearStep(sy: int)
    ensures ShiftedYearStart(sy + 1) - ShiftedYearStart(sy) == if IsLeapYear(sy + 1) then 366 else 365
  {
    var e, k := sy / 400, sy % 400;
    ShiftedYearLength(k);
    LeapPeriodic(e, k + 1);
    assert sy + 1 == 400 * e + (k + 1);
    if k == 399 {
      assert (sy + 1) / 400 == e + 1 && (sy + 1) % 400 == 0;
      assert YearStartInEra(400) == DaysPerEra;
    } else {
      assert (sy + 1) / 400 == e && (sy + 1) % 400 == k + 1;
    }
  }

  lemma {:induction false} YearStartMonotone(a: int, b: int)
    requires a <= b
    ensures YearStartInEra(a) <= YearStartInEra(b)
    decreases b - a
  {
    if a < b {
      ShiftedYearLength(a);
      YearStartMonotone(a + 1, b);
    }
  }

  /** The pieces ToCivil finds for a day number. */
  lemma ToCivilParts(n: Day) returns (era: int, yoe: int, mp: int, doy: int)
    ensures 0 <= yoe < 400 && 0 <= mp < 12
    ensures 0 <= doy < YearStartInEra(yoe + 1) - YearStartInEra(yoe)
    ensures MonthStartInYear(mp) <= doy < MonthStartInYear(mp + 1)
    ensures n + EpochShift == era * DaysPerEra + YearStartInEra(yoe) + doy
    ensures ToCivil(n) == Civil(era * 400 + yoe + (if CalendarMonth(mp) < 2 then 1 else 0),
                                CalendarMonth(mp), doy - MonthStartInYear(mp) + 1)
  {
    var z := n + EpochShift;
    era := z / DaysPerEra;
    var doe := z % DaysPerEra;
    assert z == era * DaysPerEra + doe;
    yoe, mp, doy := EraDayParts(era, doe);
  }

  /** The pieces CivilOfEraDay finds for a day of an era. */
  lemma EraDayParts(era: int, doe: int) returns (yoe: int, mp: int, doy: int)
    requires 0 <= doe < DaysPerEra
    ensures 0 <= yoe < 400 && 0 <= mp < 12
    ensures 0 <= doy < YearStartInEra(yoe + 1) - YearStartInEra(yoe)
    ensures MonthStartInYear(mp) <= doy < MonthStartInYear(mp + 1)
    ensures doe == YearStartInEra(yoe) + doy
    ensures CivilOfEraDay(era, doe) == Civil(era * 400 + yoe + (if CalendarMonth(mp) < 2 then 1 else 0),
                                             CalendarMonth(mp), doy - MonthStartInYear(mp) + 1)
  {
    yoe := YearOfEra(doe);
    doy := doe - YearStartInEra(yoe);
    DayOfYearBound(yoe, doe);
    mp := MonthOfYear(doy);
  }

  /** Going from a calendar month to its shifted year and month and back. */
  lemma ShiftedOfCalendar(era: int, yoe: int, mp: int, d: int)
    requires 0 <= yoe < 400 && 0 <= mp < 12
    ensures var m := CalendarMonth(mp);
            FromCivil(era * 400 + yoe + (if m < 2 then 1 else 0), m, d) == FromShifted(era * 400 + yoe, mp, d)
  {
    var m := CalendarMonth(mp);
    var y := era * 400 + yoe + (if m < 2 then 1 else 0);
    assert NormYear(y, m) == y && NormMonth(m) == m;
    assert ShiftedMonth(m) == mp;
  }

  lemma ShiftedYearStartOfEra(era: int, yoe: int)
    requires 0 <= yoe < 400
    ensures ShiftedYearStart(era * 400 + yoe) == era * DaysPerEra + YearStartInEra(yoe)
  {
    assert (era * 400 + yoe) / 400 == era;
    assert (era * 400 + yoe) % 400 == yoe;
  }

  /** Month lengths read off the shifted calendar: every month but the last
      (February) runs up to the start of the next one, and February ends the
      year, with 29 days in a leap year. */
  lemma ShiftedMonthLength(sy: int, mp: int)
    requires 0 <= mp < 12
    ensures mp < 11 ==> MonthStartInYear(mp + 1) - MonthStartInYear(mp) == MonthLength(sy, CalendarMonth(mp))
    ensures mp == 11 ==> MonthStartInYear(mp) == 337
  {
  }

  /** Converting a day number to its date and back gives the day number again. */
  lemma FromToCivil(n: Day)
    ensures ValidCivil(ToCivil(n))
    ensures FromCivil(ToCivil(n).year, ToCivil(n).month, ToCivil(n).day) == n
  {
    var era, yoe, mp, doy := ToCivilParts(n);
    ValidOfParts(era, yoe, mp, doy);
    FromCivilOfParts(era, yoe, mp, doy);
  }

  /** The date assembled from the pieces of a day of a shifted year. */
  function CivilOfParts(era: int, yoe: int, mp: int, doy: int): Civil
    requires 0 <= mp < 12
  {
    Civil(era * 400 + yoe + (if CalendarMonth(mp) < 2 then 1 else 0), CalendarMonth(mp), doy - MonthStartInYear(mp) + 1)
  }

  /** The date found for a day of a shifted year is valid. */
  lemma ValidOfParts(era: int, yoe: int, mp: int, doy: int)
    requires 0 <= yoe < 400 && 0 <= mp < 12
    requires 0 <= doy < YearStartInEra(yoe + 1) - YearStartInEra(yoe)
    requires MonthStartInYear(mp) <= doy < MonthStartInYear(mp + 1)
    ensures ValidCivil(CivilOfParts(era, yoe, mp, doy))
  {
    ShiftedMonthLength(era * 400 + yoe, mp);
    if mp == 11 {
      ShiftedYearLength(yoe);
      LeapPeriodic(era, yoe + 1);
    }
  }

  /** The date found for a day of a shifted year names that day. */
  lemma FromCivilOfParts(era: int, yoe: int, mp: int, doy: int)
    requires 0 <= yoe < 400 && 0 <= mp < 12
    ensures var c := CivilOfParts(era, yoe, mp, doy);
            FromCivil(c.year, c.month, c.day) == era * DaysPerEra + YearStartInEra(yoe) + doy - EpochShift
  {
    var c := CivilOfParts(era, yoe, mp, doy);
    var sy := era * 400 + yoe;
    ShiftedOfCalendar(era, yoe, mp, c.day);
    ShiftedYearStartOfEra(era, yoe);
    assert FromShifted(sy, mp, c.day) == ShiftedYearStart(sy) + MonthStartInYear(mp) + c.day - 1 - EpochShift;
  }

  /** The pieces FromCivil combines for a valid date. */
  lemma FromCivilParts(c: Civil) returns (era: int, yoe: int, mp: int, doy: int)
    requires ValidCivil(c)
    ensures 0 <= yoe < 400 && 0 <= mp < 12
    ensures 0 <= doy < YearStartInEra(yoe + 1) - YearStartInEra(yoe)
    ensures MonthStartInYear(mp) <= doy < MonthStartInYear(mp + 1)
    ensures FromCivil(c.year, c.month, c.day) + EpochShift == era * DaysPerEra + YearStartInEra(yoe) + doy
    ensures c == Civil(era * 400 + yoe + (if CalendarMonth(mp) < 2 then 1 else 0),
                       CalendarMonth(mp), doy - MonthStartInYear(mp) + 1)
  {
    var sy := if c.month < 2 then c.year - 1 else c.year;
    mp := ShiftedMonth(c.month);
    era, yoe := sy / 400, sy % 400;
    assert sy == era * 400 + yoe;
    doy := MonthStartInYear(mp) + c.day - 1;
    ShiftedDayBounds(c, sy, era, yoe, mp);
    FromCivilShifted(c.year, c.month, c.day);
    ShiftedYearStartOfEra(era, yoe);
    assert CalendarMonth(mp) == c.month;
  }

  /** A date with its month in range, written in the shifted calendar. */
  lemma FromCivilShifted(y: int, m: int, d: int)
    requires 0 <= m < 12
    ensures FromCivil(y, m, d) == FromShifted(if m < 2 then y - 1 else y, ShiftedMonth(m), d)
  {
    assert NormYear(y, m) == y && NormMonth(m) == m;
  }

  /** A valid date's day within its shifted year lies inside its shifted month and inside the year. */
  lemma ShiftedDayBounds(c: Civil, sy: int, era: int, yoe: int, mp: int)
    requires ValidCivil(c)
    requires sy == (if c.month < 2 then c.year - 1 else c.year) && mp == ShiftedMonth(c.month)
    requires sy == era * 400 + yoe && 0 <= yoe < 400
    ensures 0 <= MonthStartInYear(mp) + c.day - 1 < YearStartInEra(yoe + 1) - YearStartInEra(yoe)
    ensures MonthStartInYear(mp) + c.day - 1 < MonthStartInYear(mp + 1)
  {
    ShiftedYearLength(yoe);
    ShiftedMonthLength(sy, mp);
    if mp == 11 {
      LeapPeriodic(era, yoe + 1);
      assert c.year == 400 * era + (yoe + 1);
    }
  }

  /** Converting a valid date to its day number and back gives the date again. */
  lemma ToFromCivil(c: Civil)
    requires ValidCivil(c)
    ensures ToCivil(FromCivil(c.year, c.month, c.day)) == c
  {
    var era, yoe, mp, doy := FromCivilParts(c);
    var era', yoe', mp', doy' := ToCivilParts(FromCivil(c.year, c.month, c.day));
    SameShiftedYear(era, yoe, doy, era', yoe', doy');
    SameShiftedMonth(doy, mp, mp');
  }

  /** A day of an era lies in exactly one shifted year. */
  lemma SameShiftedYear(e1: int, y1: int, d1: int, e2: int, y2: int, d2: int)
    requires 0 <= y1 < 400 && 0 <= d1 < YearStartInEra(y1 + 1) - YearStartInEra(y1)
    requires 0 <= y2 < 400 && 0 <= d2 < YearStartInEra(y2 + 1) - YearStartInEra(y2)
    requires e1 * DaysPerEra + YearStartInEra(y1) + d1 == e2 * DaysPerEra + YearStartInEra(y2) + d2
    ensures e1 == e2 && y1 == y2 && d1 == d2
  {
    YearStartMonotone(0, y1);
    YearStartMonotone(y1 + 1, 400);
    YearStartMonotone(0, y2);
    YearStartMonotone(y2 + 1, 400);
    assert e1 == e2;
    if y1 < y2 {
      YearStartMonotone(y1 + 1, y2);
    } else if y2 < y1 {
      YearStartMonotone(y2 + 1, y1);
    }
  }

  /** A day of a shifted year lies in exactly one shifted month. */
  lemma SameShiftedMonth(doy: int, m1: int, m2: int)
    requires 0 <= m1 < 12 && 0 <= m2 < 12
    requires MonthStartInYear(m1) <= doy < MonthStartInYear(m1 + 1)
    requires MonthStartInYear(m2) <= doy < MonthStartInYear(m2 + 1)
    ensures m1 == m2
  {
  }

  /** Dates of different day numbers differ. */
  lemma ToCivilInjective(a: Day, b: Day)
    ensures ToCivil(a) == ToCivil(b) <==> a == b
  {
    FromToCivil(a);
    FromToCivil(b);
  }

  /** "Day 0 of the next month" is the last day of this month: consecutive
      first days are MonthLength days apart, for any (year, month) pair. */
  lemma MonthSpan(y: int, m: int)
    ensures FromCivil(y, m + 1, 1) - FromCivil(y, m, 1) == MonthLength(NormYear(y, m), NormMonth(m))
  {
    var ny, nm := NormYear(y, m), NormMonth(m);
    if nm == 11 {
      assert NormYear(y, m + 1) == ny + 1 && NormMonth(m + 1) == 0;
    } else {
      assert NormYear(y, m + 1) == ny && NormMonth(m + 1) == nm + 1;
    }
    NormalSpan(FromCivil(y, m, 1), FromCivil(y, m + 1, 1), ny, nm);
  }

  /** The first days of a month in normal form and of the month after it lie the month's length apart. */
  lemma NormalSpan(a: int, b: int, ny: int, nm: int)
    requires 0 <= nm < 12
    requires a == FromShifted(if nm < 2 then ny - 1 else ny, ShiftedMonth(nm), 1)
    requires nm == 11 ==> b == FromShifted(ny, ShiftedMonth(0), 1)
    requires nm < 11 ==> b == FromShifted(if nm + 1 < 2 then ny - 1 else ny, ShiftedMonth(nm + 1), 1)
    ensures b - a == MonthLength(ny, nm)
  {
    if nm == 1 {
      ShiftedYearStep(ny - 1);
    } else {
      ShiftedMonthLength(if nm < 2 then ny - 1 else ny, ShiftedMonth(nm));
    }
  }

  /** The shifted year 2025 begins on day 739616 counted from 0000-03-01. */
  lemma ShiftedYearStart2025()
    ensures ShiftedYearStart(2025) == 739616
  {
    assert YearStartInEra(25) == 9131;
  }
}
